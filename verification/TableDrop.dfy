/** Dropping a table: which pages are its own, on any graph of links, and that exactly those are freed. */
module TableDrop {
  import opened Bits
  import opened Inflate
  import opened LittleEndian
  import opened AllocationMaps
  import opened PageAllocation
  import opened PageChains
  import opened TableCatalog
  import BTreeLookup

  const DATA_KIND: nat := 10
  const SYSTEM_OWNER: int := -2

  /** What an index walk sees of a page. */
  datatype Node = NotIndex | Malformed | Leaf | Inner(children: seq<int>)

  /** What the catalog, the column definitions and the index reader name for one table. */
  datatype TableDesc = TableDesc(id: int, starts: seq<int>, roots: seq<int>, blobRoot: int)

  datatype DropResult = Dropped | NoTable | WalkFailed | HasBlobs | Unattributed | LastTable | Refused | BadCatalog

  // -- walking an index tree -------------------------------------------------------------------------

  function Children(nodes: seq<Node>, no: int): seq<int>
  {
    if 0 <= no < |nodes| && nodes[no].Inner? then nodes[no].children else []
  }

  /** A page the walk can pass: it exists and is a well-formed index page. */
  predicate Passable(nodes: seq<Node>, no: int)
  {
    0 <= no < |nodes| && (nodes[no].Leaf? || nodes[no].Inner?)
  }

  ghost predicate Path(nodes: seq<Node>, path: seq<int>)
  {
    path != [] && forall i :: 0 <= i < |path| - 1 ==> path[i + 1] in Children(nodes, path[i])
  }

  ghost predicate Reachable(nodes: seq<Node>, root: int, x: int)
  {
    exists path :: Path(nodes, path) && path[0] == root && path[|path| - 1] == x
  }

  lemma ReachRoot(nodes: seq<Node>, root: int)
    ensures Reachable(nodes, root, root)
  {
    assert Path(nodes, [root]);
  }

  lemma ReachChild(nodes: seq<Node>, root: int, x: int, y: int)
    requires Reachable(nodes, root, x) && y in Children(nodes, x)
    ensures Reachable(nodes, root, y)
  {
    var path :| Path(nodes, path) && path[0] == root && path[|path| - 1] == x;
    var longer := path + [y];
    forall i | 0 <= i < |longer| - 1
      ensures longer[i + 1] in Children(nodes, longer[i])
    {
      if i < |path| - 1 { assert path[i + 1] in Children(nodes, path[i]); }
    }
    assert Path(nodes, longer);
  }

  ghost predicate Closed(nodes: seq<Node>, s: set<int>)
  {
    forall x, y :: x in s && y in Children(nodes, x) ==> y in s
  }

  lemma {:induction false} PathInside(nodes: seq<Node>, s: set<int>, path: seq<int>)
    requires Closed(nodes, s) && Path(nodes, path) && path[0] in s
    ensures path[|path| - 1] in s
  {
    if |path| > 1 {
      var init := path[..|path| - 1];
      assert Path(nodes, init) by {
        forall i | 0 <= i < |init| - 1
          ensures init[i + 1] in Children(nodes, init[i])
        {
          assert path[i + 1] in Children(nodes, path[i]);
        }
      }
      PathInside(nodes, s, init);
      var k := |path| - 2;
      StaysInside(nodes, s, path[k], path[k + 1]);
    }
  }

  lemma StaysInside(nodes: seq<Node>, s: set<int>, x: int, y: int)
    requires Closed(nodes, s) && x in s && y in Children(nodes, x)
    ensures y in s
  {
    hide Children;
  }

  /** A closed set that holds the root holds all that is reachable. */
  lemma ClosedReach(nodes: seq<Node>, s: set<int>, root: int)
    requires Closed(nodes, s) && root in s
    ensures forall x :: Reachable(nodes, root, x) ==> x in s
  {
    forall x | Reachable(nodes, root, x)
      ensures x in s
    {
      var path :| Path(nodes, path) && path[0] == root && path[|path| - 1] == x;
      PathInside(nodes, s, path);
    }
  }

  /** How far the walk has come. */
  ghost predicate Walked(nodes: seq<Node>, root: int, visited: set<int>, queue: seq<int>)
  {
    && (forall x :: x in visited ==> Passable(nodes, x) && Reachable(nodes, root, x))
    && (forall i :: 0 <= i < |queue| ==> Reachable(nodes, root, queue[i]))
    && (root in visited || root in queue)
    && forall x, y :: x in visited && y in Children(nodes, x) ==> y in visited || y in queue
  }

  lemma WalkStart(nodes: seq<Node>, root: int)
    ensures Walked(nodes, root, {}, [root])
  {
    ReachRoot(nodes, root);
  }

  lemma WalkSeen(nodes: seq<Node>, root: int, visited: set<int>, queue: seq<int>)
    requires Walked(nodes, root, visited, queue) && queue != [] && queue[0] in visited
    ensures Walked(nodes, root, visited, queue[1..])
  {
    hide Passable, Reachable, Children;
    assert queue == [queue[0]] + queue[1..];
  }

  lemma WalkOn(nodes: seq<Node>, root: int, visited: set<int>, queue: seq<int>)
    requires Walked(nodes, root, visited, queue) && queue != [] && Passable(nodes, queue[0])
    ensures Walked(nodes, root, visited + {queue[0]}, queue[1..] + Children(nodes, queue[0]))
  {
    hide Reachable, Children;
    var no := queue[0];
    assert queue == [no] + queue[1..];
    forall y | y in Children(nodes, no)
      ensures Reachable(nodes, root, y)
    {
      ReachChild(nodes, root, no, y);
    }
  }

  lemma WalkDone(nodes: seq<Node>, root: int, visited: set<int>)
    requires Walked(nodes, root, visited, [])
    ensures forall x :: Reachable(nodes, root, x) <==> x in visited
    ensures forall x :: Reachable(nodes, root, x) ==> Passable(nodes, x)
  {
    hide Reachable, Children;
    forall x, y | x in visited && y in Children(nodes, x)
      ensures y in visited
    {
      var none: seq<int> := [];
      assert y in none || (y in visited);
    }
    ClosedReach(nodes, visited, root);
  }

  /** All pages of the tree rooted at root, on any graph: exactly those reachable, or nothing when one
      of them is not an index page of the file. */
  method IndexTreePages(nodes: seq<Node>, root: int) returns (r: Option<set<int>>)
    ensures r.Some? <==> forall x :: Reachable(nodes, root, x) ==> Passable(nodes, x)
    ensures r.Some? ==> forall x :: Reachable(nodes, root, x) <==> x in r.value
  {
    hide *;
    var visited: set<int>, queue := {}, [root];
    WalkStart(nodes, root);
    while queue != []
      invariant Walked(nodes, root, visited, queue) && visited <= BTreeLookup.PageNumbers(|nodes|)
      decreases |BTreeLookup.PageNumbers(|nodes|) - visited|, |queue|
    {
      var no := queue[0];
      if no in visited {
        WalkSeen(nodes, root, visited, queue);
        queue := queue[1..];
        continue;
      }
      FrontReached(nodes, root, visited, queue);
      if !Passable(nodes, no) { return None; }
      WalkOn(nodes, root, visited, queue);
      PassableBelow(nodes, no);
      BTreeLookup.FewerLeft(BTreeLookup.PageNumbers(|nodes|), visited, no);
      visited := visited + {no};
      queue := queue[1..] + Children(nodes, no);
    }
    WalkDone(nodes, root, visited);
    r := Some(visited);
  }

  lemma FrontReached(nodes: seq<Node>, root: int, visited: set<int>, queue: seq<int>)
    requires Walked(nodes, root, visited, queue) && queue != []
    ensures Reachable(nodes, root, queue[0])
  {
    hide Passable, Reachable, Children;
  }

  lemma PassableBelow(nodes: seq<Node>, no: int)
    requires Passable(nodes, no)
    ensures 0 <= no && no in BTreeLookup.PageNumbers(|nodes|)
  {
  }

  // -- the pages of one table ------------------------------------------------------------------------

  ghost predicate OnChain(pg: seq<PageBuf>, start: int, x: int)
  {
    start >= 0 && exists p :: ChainFrom(ReadView(pg), start, p) && x in PageSet(p)
  }

  ghost predicate InTree(nodes: seq<Node>, desc: TableDesc, root: int, x: int)
  {
    root >= 0 && root != desc.blobRoot && Reachable(nodes, root, x)
  }

  predicate DataPage(pg: seq<PageBuf>, id: int, x: int)
  {
    0 <= x < |pg| && pg[x].header && pg[x].kind == DATA_KIND && !pg[x].freed && pg[x].owner == id
  }

  function PageSet(p: seq<nat>): (s: set<int>)
    ensures forall i :: 0 <= i < |p| ==> p[i] in s
    ensures forall x :: x in s ==> exists i :: 0 <= i < |p| && p[i] == x
  {
    set i | 0 <= i < |p| :: p[i]
  }

  ghost predicate OnChains(pg: seq<PageBuf>, starts: seq<int>, x: int)
  {
    exists i :: 0 <= i < |starts| && OnChain(pg, starts[i], x)
  }

  ghost predicate InTrees(nodes: seq<Node>, desc: TableDesc, roots: seq<int>, x: int)
  {
    exists i :: 0 <= i < |roots| && InTree(nodes, desc, roots[i], x)
  }

  /** The page is on one of the table's chains, in one of its index trees, or one of its data pages. */
  ghost predicate TableOwns(pg: seq<PageBuf>, nodes: seq<Node>, desc: TableDesc, x: int)
  {
    OnChains(pg, desc.starts, x) || InTrees(nodes, desc, desc.roots, x) || DataPage(pg, desc.id, x)
  }

  lemma OnChainsMore(pg: seq<PageBuf>, starts: seq<int>, i: nat, x: int)
    requires i < |starts|
    ensures OnChains(pg, starts[..i + 1], x) <==> OnChains(pg, starts[..i], x) || OnChain(pg, starts[i], x)
  {
    hide OnChain;
    var a, b := starts[..i + 1], starts[..i];
    assert a[i] == starts[i] && forall k :: 0 <= k < i ==> a[k] == b[k];
  }

  lemma InTreesMore(nodes: seq<Node>, desc: TableDesc, roots: seq<int>, i: nat, x: int)
    requires i < |roots|
    ensures InTrees(nodes, desc, roots[..i + 1], x) <==>
      InTrees(nodes, desc, roots[..i], x) || InTree(nodes, desc, roots[i], x)
  {
    hide InTree;
    var a, b := roots[..i + 1], roots[..i];
    assert a[i] == roots[i] && forall k :: 0 <= k < i ==> a[k] == b[k];
  }

  /** As far as the first i chains, j trees and k pages tell. */
  ghost predicate Found(pg: seq<PageBuf>, nodes: seq<Node>, desc: TableDesc, i: nat, j: nat, k: nat, s: set<int>)
    requires i <= |desc.starts| && j <= |desc.roots|
  {
    forall x: int :: x in s <==>
      || OnChains(pg, desc.starts[..i], x) || InTrees(nodes, desc, desc.roots[..j], x)
      || (x < k && DataPage(pg, desc.id, x))
  }

  /** The chain can be followed to its end within 64 pages. */
  ghost predicate ChainOk(pg: seq<PageBuf>, start: int)
  {
    start >= 0 ==> exists q :: ChainFrom(ReadView(pg), start, q) && |q| <= 64
  }

  /** Every page reached from the root is an index page of the file. */
  ghost predicate TreeOk(nodes: seq<Node>, desc: TableDesc, root: int)
  {
    root >= 0 && root != desc.blobRoot ==> forall x :: Reachable(nodes, root, x) ==> Passable(nodes, x)
  }

  ghost predicate WalksOk(pg: seq<PageBuf>, nodes: seq<Node>, desc: TableDesc)
  {
    && (forall i :: 0 <= i < |desc.starts| ==> ChainOk(pg, desc.starts[i]))
    && (forall j :: 0 <= j < |desc.roots| ==> TreeOk(nodes, desc, desc.roots[j]))
  }

  lemma MakeWalksOk(pg: seq<PageBuf>, nodes: seq<Node>, desc: TableDesc)
    ensures WalksOk(pg, nodes, desc) <==>
      && (forall i :: 0 <= i < |desc.starts| ==> ChainOk(pg, desc.starts[i]))
      && (forall j :: 0 <= j < |desc.roots| ==> TreeOk(nodes, desc, desc.roots[j]))
  {
    hide ChainOk, TreeOk;
  }

  /** The two walks meet what makes them fail. */
  lemma WalkOutcome(pg: seq<PageBuf>, start: int, r: Option<seq<nat>>)
    requires start >= 0 && (r.Some? ==> ChainFrom(ReadView(pg), start, r.value) && |r.value| <= 64)
    requires forall q :: ChainFrom(ReadView(pg), start, q) && |q| <= 64 ==> r == Some(q)
    ensures ChainOk(pg, start) <==> r.Some?
  {
    hide ReadView, ChainFrom;
  }

  lemma NoWalk(pg: seq<PageBuf>, nodes: seq<Node>, desc: TableDesc, start: int, root: int)
    ensures start < 0 ==> ChainOk(pg, start)
    ensures root < 0 || root == desc.blobRoot ==> TreeOk(nodes, desc, root)
    ensures root >= 0 && root != desc.blobRoot ==>
      (TreeOk(nodes, desc, root) <==> forall x :: Reachable(nodes, root, x) ==> Passable(nodes, x))
  {
    hide ReadView, ChainFrom, Reachable;
  }

  /** Lists the pages of a table, or fails when a chain or a tree is malformed. */
  method TablePages(pg: seq<PageBuf>, nodes: seq<Node>, desc: TableDesc) returns (r: Option<set<int>>)
    requires |nodes| == |pg|
    ensures r.Some? <==> WalksOk(pg, nodes, desc)
    ensures r.Some? ==> forall x: int :: x in r.value <==> TableOwns(pg, nodes, desc, x)
    ensures r.Some? ==> forall x :: x in r.value ==> 0 <= x < |pg|
  {
    hide *;
    var seen: set<int>, i, j, k := {}, 0, 0, 0;
    FoundNone(pg, nodes, desc);
    InsideNone(|pg|);
    MakeWalksOk(pg, nodes, desc);
    while i < |desc.starts|
      invariant i <= |desc.starts| && Found(pg, nodes, desc, i, 0, 0, seen) && Inside(seen, |pg|)
      invariant forall k :: 0 <= k < i ==> ChainOk(pg, desc.starts[k])
    {
      NoWalk(pg, nodes, desc, desc.starts[i], -1);
      if desc.starts[i] < 0 {
        FoundNoChain(pg, nodes, desc, i, seen);
      } else {
        var chain := FollowChain(ReadView(pg), desc.starts[i]);
        WalkOutcome(pg, desc.starts[i], chain);
        if chain.None? { return None; }
        FoundChain(pg, nodes, desc, i, seen, chain.value);
        InsideChain(pg, seen, desc.starts[i], chain.value);
        seen := seen + PageSet(chain.value);
      }
      i := i + 1;
    }
    while j < |desc.roots|
      invariant j <= |desc.roots| && Found(pg, nodes, desc, i, j, 0, seen) && Inside(seen, |pg|)
      invariant forall k :: 0 <= k < j ==> TreeOk(nodes, desc, desc.roots[k])
    {
      NoWalk(pg, nodes, desc, -1, desc.roots[j]);
      if desc.roots[j] < 0 || desc.roots[j] == desc.blobRoot {
        FoundNoTree(pg, nodes, desc, i, j, seen);
      } else {
        var tree := IndexTreePages(nodes, desc.roots[j]);
        if tree.None? { return None; }
        FoundTree(pg, nodes, desc, i, j, seen, tree.value);
        InsideTree(nodes, seen, desc.roots[j], tree.value);
        seen := seen + tree.value;
      }
      j := j + 1;
    }
    while k < |pg|
      invariant k <= |pg| && Found(pg, nodes, desc, i, j, k, seen) && Inside(seen, |pg|)
    {
      FoundPage(pg, nodes, desc, i, j, k, seen);
      InsideMore(seen, |pg|, k);
      if DataPage(pg, desc.id, k) { seen := seen + {k}; }
      k := k + 1;
    }
    FoundAll(pg, nodes, desc, k, seen);
    InsideParts(seen, |pg|);
    r := Some(seen);
  }

  lemma FoundNone(pg: seq<PageBuf>, nodes: seq<Node>, desc: TableDesc)
    ensures Found(pg, nodes, desc, 0, 0, 0, {})
  {
    hide OnChain, InTree;
  }

  lemma FoundNoChain(pg: seq<PageBuf>, nodes: seq<Node>, desc: TableDesc, i: nat, s: set<int>)
    requires i < |desc.starts| && Found(pg, nodes, desc, i, 0, 0, s) && desc.starts[i] < 0
    ensures Found(pg, nodes, desc, i + 1, 0, 0, s)
  {
    hide OnChains, InTrees, ReadView;
    forall x: int
      ensures OnChains(pg, desc.starts[..i + 1], x) <==> OnChains(pg, desc.starts[..i], x)
    {
      OnChainsMore(pg, desc.starts, i, x);
    }
  }

  lemma FoundChain(pg: seq<PageBuf>, nodes: seq<Node>, desc: TableDesc, i: nat, s: set<int>, p: seq<nat>)
    requires i < |desc.starts| && Found(pg, nodes, desc, i, 0, 0, s) && desc.starts[i] >= 0
    requires ChainFrom(ReadView(pg), desc.starts[i], p)
    ensures Found(pg, nodes, desc, i + 1, 0, 0, s + PageSet(p))
  {
    hide OnChains, OnChain, InTrees, ReadView, ChainFrom;
    var s2 := s + PageSet(p);
    forall x: int
      ensures x in s2 <==> OnChains(pg, desc.starts[..i + 1], x) || InTrees(nodes, desc, desc.roots[..0], x)
    {
      OnChainsMore(pg, desc.starts, i, x);
      OneChain(pg, desc.starts[i], p, x);
    }
  }

  lemma OneChain(pg: seq<PageBuf>, start: nat, p: seq<nat>, x: int)
    requires ChainFrom(ReadView(pg), start, p)
    ensures OnChain(pg, start, x) <==> x in PageSet(p)
  {
    hide ChainFrom;
    if OnChain(pg, start, x) {
      var q :| ChainFrom(ReadView(pg), start, q) && x in PageSet(q);
      ChainParts(ReadView(pg), start, p);
      ChainParts(ReadView(pg), start, q);
      ChainSame(ReadView(pg), p, q);
    }
  }

  lemma FoundNoTree(pg: seq<PageBuf>, nodes: seq<Node>, desc: TableDesc, i: nat, j: nat, s: set<int>)
    requires i <= |desc.starts| && j < |desc.roots| && Found(pg, nodes, desc, i, j, 0, s)
    requires desc.roots[j] < 0 || desc.roots[j] == desc.blobRoot
    ensures Found(pg, nodes, desc, i, j + 1, 0, s)
  {
    hide OnChains, InTrees, Reachable;
    forall x: int
      ensures InTrees(nodes, desc, desc.roots[..j + 1], x) <==> InTrees(nodes, desc, desc.roots[..j], x)
    {
      InTreesMore(nodes, desc, desc.roots, j, x);
    }
  }

  lemma FoundTree(pg: seq<PageBuf>, nodes: seq<Node>, desc: TableDesc, i: nat, j: nat, s: set<int>, tree: set<int>)
    requires i <= |desc.starts| && j < |desc.roots| && Found(pg, nodes, desc, i, j, 0, s)
    requires desc.roots[j] >= 0 && desc.roots[j] != desc.blobRoot
    requires forall x :: Reachable(nodes, desc.roots[j], x) <==> x in tree
    ensures Found(pg, nodes, desc, i, j + 1, 0, s + tree)
  {
    hide OnChains, InTrees, Reachable;
    var s2 := s + tree;
    forall x: int
      ensures x in s2 <==> OnChains(pg, desc.starts[..i], x) || InTrees(nodes, desc, desc.roots[..j + 1], x)
    {
      InTreesMore(nodes, desc, desc.roots, j, x);
    }
  }

  lemma FoundPage(pg: seq<PageBuf>, nodes: seq<Node>, desc: TableDesc, i: nat, j: nat, k: nat, s: set<int>)
    requires i <= |desc.starts| && j <= |desc.roots| && Found(pg, nodes, desc, i, j, k, s)
    ensures Found(pg, nodes, desc, i, j, k + 1, if DataPage(pg, desc.id, k) then s + {k} else s)
  {
    hide OnChains, InTrees, DataPage;
    var s2 := if DataPage(pg, desc.id, k) then s + {k} else s;
    forall x: int
      ensures x in s2 <==> x in s || (x == k && DataPage(pg, desc.id, x))
    {
    }
  }

  lemma FoundAll(pg: seq<PageBuf>, nodes: seq<Node>, desc: TableDesc, k: nat, s: set<int>)
    requires Found(pg, nodes, desc, |desc.starts|, |desc.roots|, k, s) && k >= |pg|
    ensures forall x: int :: x in s <==> TableOwns(pg, nodes, desc, x)
  {
    hide OnChains, InTrees;
    assert desc.starts[..|desc.starts|] == desc.starts && desc.roots[..|desc.roots|] == desc.roots;
    assert forall x :: DataPage(pg, desc.id, x) ==> x < k;
  }

  ghost predicate Inside(s: set<int>, n: nat)
  {
    forall x :: x in s ==> 0 <= x < n
  }

  lemma InsideNone(n: nat)
    ensures Inside({}, n)
  {
  }

  lemma InsideParts(s: set<int>, n: nat)
    requires Inside(s, n)
    ensures forall x :: x in s ==> 0 <= x < n
  {
  }

  lemma InsideMore(s: set<int>, n: nat, k: nat)
    requires Inside(s, n) && k < n
    ensures Inside(s + {k}, n)
  {
  }

  lemma InsideChain(pg: seq<PageBuf>, s: set<int>, start: nat, p: seq<nat>)
    requires Inside(s, |pg|) && ChainFrom(ReadView(pg), start, p)
    ensures Inside(s + PageSet(p), |pg|)
  {
  }

  lemma InsideTree(nodes: seq<Node>, s: set<int>, root: int, tree: set<int>)
    requires Inside(s, |nodes|) && forall x :: Reachable(nodes, root, x) <==> x in tree
    requires forall x :: Reachable(nodes, root, x) ==> Passable(nodes, x)
    ensures Inside(s + tree, |nodes|)
  {
    hide Reachable;
  }

  // -- attributing every page ----------------------------------------------------------------------------

  datatype Ownership = Ownership(owner: map<int, int>, unattributed: seq<int>)

  predicate Live(pg: seq<PageBuf>, x: int)
  {
    0 <= x < |pg| && pg[x].header && !pg[x].freed
  }

  /** A page in use that belongs to the database itself. */
  predicate DatabasePage(pg: seq<PageBuf>, x: int)
  {
    Live(pg, x) && 2 <= pg[x].kind <= 6
  }

  ghost predicate SomeOwns(pg: seq<PageBuf>, nodes: seq<Node>, tables: seq<TableDesc>, x: int)
  {
    exists t :: 0 <= t < |tables| && TableOwns(pg, nodes, tables[t], x)
  }

  /** The owner recorded for a page is that of every table that claims it. */
  ghost predicate Claimed(pg: seq<PageBuf>, nodes: seq<Node>, tables: seq<TableDesc>, owner: map<int, int>)
  {
    && (forall x: int :: x in owner <==> SomeOwns(pg, nodes, tables, x))
    && forall x: int, t :: x in owner && 0 <= t < |tables| && TableOwns(pg, nodes, tables[t], x) ==>
      owner[x] == tables[t].id
  }

  /** Database pages are the database's, other claimed pages their table's, and the rest in use nobody's. */
  ghost predicate Attributed(pg: seq<PageBuf>, nodes: seq<Node>, tables: seq<TableDesc>, o: Ownership)
  {
    && (forall x: int :: x in o.owner <==> DatabasePage(pg, x) || SomeOwns(pg, nodes, tables, x))
    && (forall x: int :: x in o.owner && DatabasePage(pg, x) ==> o.owner[x] == SYSTEM_OWNER)
    && (forall x: int, t ::
          x in o.owner && !DatabasePage(pg, x) && 0 <= t < |tables| && TableOwns(pg, nodes, tables[t], x) ==>
          o.owner[x] == tables[t].id)
    && (forall x: int :: x in o.unattributed <==> Live(pg, x) && x !in o.owner)
  }

  /** Two tables with different ids claim the page. */
  ghost predicate Contested(pg: seq<PageBuf>, nodes: seq<Node>, tables: seq<TableDesc>, x: int)
  {
    exists t, u :: 0 <= t < |tables| && 0 <= u < |tables| && tables[t].id != tables[u].id
      && TableOwns(pg, nodes, tables[t], x) && TableOwns(pg, nodes, tables[u], x)
  }

  /** Every walk succeeds and no page is contested. */
  ghost predicate Attributable(pg: seq<PageBuf>, nodes: seq<Node>, tables: seq<TableDesc>)
  {
    && (forall t :: 0 <= t < |tables| ==> WalksOk(pg, nodes, tables[t]))
    && forall x :: !Contested(pg, nodes, tables, x)
  }

  lemma FoundContest(pg: seq<PageBuf>, nodes: seq<Node>, tables: seq<TableDesc>, t: nat, owner: map<int, int>,
      s: set<int>)
    requires t < |tables| && Claimed(pg, nodes, tables[..t], owner)
    requires forall x: int :: x in s <==> TableOwns(pg, nodes, tables[t], x)
    requires exists x :: x in s && x in owner && owner[x] != tables[t].id
    ensures !Attributable(pg, nodes, tables)
  {
    hide TableOwns, WalksOk;
    var x :| x in s && x in owner && owner[x] != tables[t].id;
    var a := tables[..t];
    var k :| 0 <= k < t && TableOwns(pg, nodes, a[k], x);
    assert a[k] == tables[k] && owner[x] == a[k].id;
    assert Contested(pg, nodes, tables, x);
  }

  lemma NoContest(pg: seq<PageBuf>, nodes: seq<Node>, tables: seq<TableDesc>, owner: map<int, int>)
    requires Claimed(pg, nodes, tables, owner) && forall t :: 0 <= t < |tables| ==> WalksOk(pg, nodes, tables[t])
    ensures Attributable(pg, nodes, tables)
  {
    hide TableOwns, WalksOk;
    forall x
      ensures !Contested(pg, nodes, tables, x)
    {
      forall t, u | 0 <= t < |tables| && 0 <= u < |tables|
        ensures TableOwns(pg, nodes, tables[t], x) && TableOwns(pg, nodes, tables[u], x) ==>
          tables[t].id == tables[u].id
      {
        if TableOwns(pg, nodes, tables[t], x) { assert SomeOwns(pg, nodes, tables, x); }
      }
    }
  }

  lemma WalkStops(pg: seq<PageBuf>, nodes: seq<Node>, tables: seq<TableDesc>, t: nat)
    requires t < |tables| && !WalksOk(pg, nodes, tables[t])
    ensures !Attributable(pg, nodes, tables)
  {
    hide WalksOk;
  }

  /** Attributes every page in use, or fails when a walk fails or two tables claim one page. */
  method OwnedPages(pg: seq<PageBuf>, nodes: seq<Node>, tables: seq<TableDesc>) returns (r: Option<Ownership>)
    requires |nodes| == |pg|
    ensures r.Some? <==> Attributable(pg, nodes, tables)
    ensures r.Some? ==> Attributed(pg, nodes, tables, r.value)
    ensures r.Some? ==> forall x :: x in r.value.owner ==> 0 <= x < |pg|
  {
    hide *;
    var owner: map<int, int>, t := map[], 0;
    ClaimedNone(pg, nodes, tables);
    assert owner.Keys == {};
    while t < |tables|
      invariant t <= |tables| && Claimed(pg, nodes, tables[..t], owner) && Inside(owner.Keys, |pg|)
      invariant forall k :: 0 <= k < t ==> WalksOk(pg, nodes, tables[k])
    {
      var pages := TablePages(pg, nodes, tables[t]);
      if pages.None? {
        WalkStops(pg, nodes, tables, t);
        return None;
      }
      var s, id := pages.value, tables[t].id;
      if exists x :: x in s && x in owner && owner[x] != id {
        FoundContest(pg, nodes, tables, t, owner, s);
        return None;
      }
      ClaimedMore(pg, nodes, tables, t, owner, s);
      owner := Given(owner, s, id);
      t := t + 1;
    }
    assert tables[..t] == tables;
    NoContest(pg, nodes, tables, owner);
    r := AttributeRest(pg, nodes, tables, owner);
  }

  function Given(owner: map<int, int>, s: set<int>, id: int): (m: map<int, int>)
    ensures m.Keys == owner.Keys + s && forall x :: x in m ==> m[x] == if x in s then id else owner[x]
  {
    owner + map x | x in s :: id
  }

  lemma ClaimedNone(pg: seq<PageBuf>, nodes: seq<Node>, tables: seq<TableDesc>)
    ensures Claimed(pg, nodes, tables[..0], map[]) && Inside({}, |pg|)
  {
    hide TableOwns;
  }

  lemma ClaimedMore(pg: seq<PageBuf>, nodes: seq<Node>, tables: seq<TableDesc>, t: nat, owner: map<int, int>,
      s: set<int>)
    requires t < |tables| && Claimed(pg, nodes, tables[..t], owner) && Inside(owner.Keys, |pg|)
    requires (forall x: int :: x in s <==> TableOwns(pg, nodes, tables[t], x)) && forall x :: x in s ==> 0 <= x < |pg|
    requires forall x :: x in s && x in owner ==> owner[x] == tables[t].id
    ensures Claimed(pg, nodes, tables[..t + 1], Given(owner, s, tables[t].id))
    ensures Inside(Given(owner, s, tables[t].id).Keys, |pg|)
  {
    hide TableOwns;
    var a, b := tables[..t], tables[..t + 1];
    assert b[t] == tables[t] && forall k :: 0 <= k < t ==> b[k] == a[k];
    forall x: int
      ensures SomeOwns(pg, nodes, b, x) <==> SomeOwns(pg, nodes, a, x) || x in s
    {
      if SomeOwns(pg, nodes, a, x) {
        var k :| 0 <= k < t && TableOwns(pg, nodes, a[k], x);
        assert TableOwns(pg, nodes, b[k], x);
      }
      if x in s { assert TableOwns(pg, nodes, b[t], x); }
    }
  }

  /** The pages of the database, and those left over. */
  method AttributeRest(pg: seq<PageBuf>, nodes: seq<Node>, tables: seq<TableDesc>, claimed: map<int, int>)
    returns (r: Option<Ownership>)
    requires Claimed(pg, nodes, tables, claimed) && Inside(claimed.Keys, |pg|)
    ensures r.Some? && Attributed(pg, nodes, tables, r.value)
    ensures forall x :: x in r.value.owner ==> 0 <= x < |pg|
  {
    hide Claimed, TableOwns, SomeOwns;
    var owner: map<int, int>, unattributed: seq<int>, no: nat := claimed, [], 0;
    while no < |pg|
      invariant no <= |pg|
      invariant forall x: int :: x in owner <==> x in claimed || (x < no && DatabasePage(pg, x))
      invariant forall x: int :: x in owner ==>
        owner[x] == if x < no && DatabasePage(pg, x) then SYSTEM_OWNER else claimed[x]
      invariant forall x: int :: x in unattributed <==> x < no && Live(pg, x) && x !in owner
    {
      if DatabasePage(pg, no) {
        owner := owner[no := SYSTEM_OWNER];
      } else if Live(pg, no) && no !in owner {
        unattributed := unattributed + [no];
      }
      no := no + 1;
    }
    r := Some(Ownership(owner, unattributed));
    AllAttributed(pg, nodes, tables, claimed, r.value);
  }

  lemma AllAttributed(pg: seq<PageBuf>, nodes: seq<Node>, tables: seq<TableDesc>, claimed: map<int, int>, o: Ownership)
    requires Claimed(pg, nodes, tables, claimed) && Inside(claimed.Keys, |pg|)
    requires forall x: int :: x in o.owner <==> x in claimed || DatabasePage(pg, x)
    requires forall x: int :: x in o.owner ==> o.owner[x] == if DatabasePage(pg, x) then SYSTEM_OWNER else claimed[x]
    requires forall x: int :: x in o.unattributed <==> Live(pg, x) && x !in o.owner
    ensures Attributed(pg, nodes, tables, o) && forall x :: x in o.owner ==> 0 <= x < |pg|
  {
    hide TableOwns, SomeOwns;
  }

  // -- dropping ----------------------------------------------------------------------------------------

  /** The pages recorded for one owner, lowest first. */
  method PagesOf(owner: map<int, int>, id: int, n: nat) returns (s: seq<nat>)
    requires forall x :: x in owner ==> 0 <= x < n
    ensures Ascending(s) && forall x: int :: x in s <==> x in owner && owner[x] == id
    ensures forall i :: 0 <= i < |s| ==> s[i] < n
  {
    s := [];
    var no := 0;
    while no < n
      invariant no <= n && Ascending(s) && forall i :: 0 <= i < |s| ==> s[i] < no
      invariant forall x: int :: x in s <==> x < no && x in owner && owner[x] == id
    {
      if no in owner && owner[no] == id { s := s + [no]; }
      no := no + 1;
    }
  }

  /** The pages a drop frees: what any table of this id claims, less the database's own pages. */
  ghost predicate DropsExactly(pg: seq<PageBuf>, nodes: seq<Node>, tables: seq<TableDesc>, id: int, freed: seq<nat>)
  {
    forall x: int :: x in freed <==>
      if DatabasePage(pg, x) then id == SYSTEM_OWNER
      else exists t :: 0 <= t < |tables| && tables[t].id == id && TableOwns(pg, nodes, tables[t], x)
  }

  lemma OwnedExactly(pg: seq<PageBuf>, nodes: seq<Node>, tables: seq<TableDesc>, o: Ownership, id: int, freed: seq<nat>)
    requires Attributed(pg, nodes, tables, o)
    requires forall x: int :: x in freed <==> x in o.owner && o.owner[x] == id
    ensures DropsExactly(pg, nodes, tables, id, freed)
  {
    hide TableOwns, DatabasePage, Live;
  }

  /** No page of a table with another id is among those freed. */
  lemma SurvivorsKeepPages(pg: seq<PageBuf>, nodes: seq<Node>, tables: seq<TableDesc>, o: Ownership, id: int,
                           freed: seq<nat>, u: nat, x: int)
    requires Attributed(pg, nodes, tables, o) && id != SYSTEM_OWNER && DropsExactly(pg, nodes, tables, id, freed)
    requires u < |tables| && tables[u].id != id && TableOwns(pg, nodes, tables[u], x)
    ensures x !in freed
  {
    hide TableOwns, DatabasePage, Live;
    assert SomeOwns(pg, nodes, tables, x);
  }

  /** When ids differ, what is freed is exactly what the dropped table itself claims. */
  lemma OwnPagesOnly(pg: seq<PageBuf>, nodes: seq<Node>, tables: seq<TableDesc>, position: nat, freed: seq<nat>, x: int)
    requires position < |tables| && DropsExactly(pg, nodes, tables, tables[position].id, freed)
    requires forall t :: 0 <= t < |tables| && t != position ==> tables[t].id != tables[position].id
    requires tables[position].id != SYSTEM_OWNER
    ensures x in freed <==> !DatabasePage(pg, x) && TableOwns(pg, nodes, tables[position], x)
  {
    hide TableOwns, DatabasePage, Live;
  }

  /** A page in use that belongs to no table and not to the database. */
  ghost predicate Orphan(pg: seq<PageBuf>, nodes: seq<Node>, tables: seq<TableDesc>, x: int)
  {
    Live(pg, x) && !DatabasePage(pg, x) && !SomeOwns(pg, nodes, tables, x)
  }

  /** The BLOB index of a table id; of several tables with one id the last one's counts. */
  function BlobRoot(tables: seq<TableDesc>, id: int): int
  {
    if tables == [] then -1
    else if tables[|tables| - 1].id == id then tables[|tables| - 1].blobRoot
    else BlobRoot(tables[..|tables| - 1], id)
  }

  /** The checks made before anything changes, in their order. */
  ghost function DropCheck(pg: seq<PageBuf>, nodes: seq<Node>, tables: seq<TableDesc>, position: int): DropResult
  {
    if position < 0 || position >= |tables| then NoTable
    else if !Attributable(pg, nodes, tables) then WalkFailed
    else if BlobRoot(tables, tables[position].id) >= 0 then HasBlobs
    else if exists x :: Orphan(pg, nodes, tables, x) then Unattributed
    else if |tables| == 1 then LastTable
    else Dropped
  }

  /** Nothing stands against dropping the table: every page in use is one table's, the table has no BLOB pages, and it
      is not the only one. */
  ghost predicate Droppable(pg: seq<PageBuf>, nodes: seq<Node>, tables: seq<TableDesc>, position: int)
  {
    && 0 <= position < |tables| && |tables| > 1 && Attributable(pg, nodes, tables)
    && BlobRoot(tables, tables[position].id) < 0 && forall x :: !Orphan(pg, nodes, tables, x)
  }

  lemma DroppableIs(pg: seq<PageBuf>, nodes: seq<Node>, tables: seq<TableDesc>, position: int)
    ensures DropCheck(pg, nodes, tables, position) == Dropped <==> Droppable(pg, nodes, tables, position)
    ensures DropCheck(pg, nodes, tables, position) !in {BadCatalog, Refused}
  {
    hide Attributable, Orphan;
  }

  lemma Orphans(pg: seq<PageBuf>, nodes: seq<Node>, tables: seq<TableDesc>, o: Ownership)
    requires Attributed(pg, nodes, tables, o)
    ensures |o.unattributed| > 0 <==> exists x :: Orphan(pg, nodes, tables, x)
  {
    hide TableOwns, DatabasePage, Live, SomeOwns;
    if |o.unattributed| > 0 {
      assert o.unattributed[0] in o.unattributed;
      assert Orphan(pg, nodes, tables, o.unattributed[0]);
    }
    if exists x :: Orphan(pg, nodes, tables, x) {
      var x :| Orphan(pg, nodes, tables, x);
      assert x in o.unattributed;
    }
  }

  /** The descriptors are those of the tables listed: ids and internal files are the catalog's. */
  ghost predicate Describes(listed: seq<TableInfo>, tables: seq<TableDesc>)
  {
    && |tables| == |listed|
    && forall i :: 0 <= i < |listed| ==>
         && tables[i].id == listed[i].id
         && tables[i].starts == [listed[i].systemPage, listed[i].schemaPage, listed[i].infoPage]
  }

  /** Drops the table at a position of the catalog. It is refused before anything changes when there is
      no such table, when a walk fails or pages are contested, when the table has a BLOB index, when a
      page in use is nobody's, and when the table is the last. Otherwise exactly the pages claimed under
      its id are freed, and the catalog lists the other tables, unless the catalog cannot be edited or
      one of the pages is free already. */
  method DropTable(file: ChainFile, catalog: array<byte>, nodes: seq<Node>, ghost listed: seq<TableInfo>,
                   tables: seq<TableDesc>, position: int)
    returns (r: DropResult, ghost freed: seq<nat>, ghost owned: Ownership)
    requires file.Valid() && |nodes| == |file.pages| && Describes(listed, tables) && catalog.Length < 0x10_0000
    requires Tables(catalog[..]).Some? ==> Tables(catalog[..]) == Some(listed)
    requires catalog as object != file.maps.pfs as object && catalog as object != file.maps.eam as object
    modifies file, file.maps, file.maps.pfs, file.maps.eam, catalog
    ensures var check := old(DropCheck(file.pages, nodes, tables, position));
      if check != Dropped then
        && r == check && file.Valid() && file.pages == old(file.pages) && file.maps.pfs[..] == old(file.maps.pfs[..])
        && catalog[..] == old(catalog[..])
      else
        && DropsExactly(old(file.pages), nodes, tables, tables[position].id, freed) && Ascending(freed)
        && r == (if !Removable(old(catalog[..]), position) then BadCatalog
                 else if !Releasable(old(file.maps.pfs[..]), freed) then Refused else Dropped)
    ensures r in {Dropped, BadCatalog, Refused} <==> Droppable(old(file.pages), nodes, tables, position)
    ensures r !in {NoTable, WalkFailed} ==> Attributed(old(file.pages), nodes, tables, owned)
    ensures r == Dropped ==>
      && file.Valid() && BitsRemoved(old(file.maps.pfs[..]), file.maps.pfs[..], freed)
      && Tombstoned(old(file.pages), file.pages, freed)
      && 0 <= position < |listed| && Tables(catalog[..]) == Some(listed[..position] + listed[position + 1..])
  {
    hide *;
    freed, owned := [], Ownership(map[], []);
    CheckSteps(file.pages, nodes, tables, position);
    DroppableIs(file.pages, nodes, tables, position);
    if position < 0 || position >= |tables| { return NoTable, freed, owned; }
    var o := OwnedPages(file.pages, nodes, tables);
    if o.None? { return WalkFailed, freed, owned; }
    owned := o.value;
    Orphans(file.pages, nodes, tables, owned);
    if BlobRoot(tables, tables[position].id) >= 0 { return HasBlobs, freed, owned; }
    if |o.value.unattributed| > 0 { return Unattributed, freed, owned; }
    if |tables| == 1 { return LastTable, freed, owned; }
    var pages := PagesOf(o.value.owner, tables[position].id, |file.pages|);
    freed := pages;
    OwnedExactly(file.pages, nodes, tables, o.value, tables[position].id, pages);
    ghost var c0 := catalog[..];
    r := ApplyDrop(file, catalog, position, pages);
    DescribesSize(listed, tables);
    if r == Dropped { ListShrinks(c0, position, listed); }
  }

  lemma DescribesSize(listed: seq<TableInfo>, tables: seq<TableDesc>)
    requires Describes(listed, tables)
    ensures |tables| == |listed|
  {
  }

  lemma CheckSteps(pg: seq<PageBuf>, nodes: seq<Node>, tables: seq<TableDesc>, position: int)
    ensures DropCheck(pg, nodes, tables, position) ==
      if position < 0 || position >= |tables| then NoTable
      else if !Attributable(pg, nodes, tables) then WalkFailed
      else if BlobRoot(tables, tables[position].id) >= 0 then HasBlobs
      else if exists x :: Orphan(pg, nodes, tables, x) then Unattributed
      else if |tables| == 1 then LastTable
      else Dropped
  {
    hide Attributable, Orphan;
  }

  lemma ListShrinks(p: seq<byte>, position: nat, listed: seq<TableInfo>)
    requires Removable(p, position) && |p| < 0x10_0000
    requires Tables(p).Some? ==> Tables(p) == Some(listed)
    ensures position < |listed| && Tables(Removed(p, position)) == Some(listed[..position] + listed[position + 1..])
  {
    hide Removed;
    Editable(p);
    RemovedTables(p, position);
  }

  /** The catalog can be edited, and has the entry. */
  predicate Removable(p: seq<byte>, position: int)
  {
    EditCheck(p) == Edited && 0 <= position < ReadInt32(p, 1) / 272
  }

  /** Marks the pages freed, removes the catalog entry and gives the pages back to the maps. */
  method ApplyDrop(file: ChainFile, catalog: array<byte>, position: nat, pages: seq<nat>) returns (r: DropResult)
    requires file.Valid() && Ascending(pages) && forall i :: 0 <= i < |pages| ==> pages[i] < |file.pages|
    requires catalog as object != file.maps.pfs as object && catalog as object != file.maps.eam as object
    modifies file, file.maps, file.maps.pfs, file.maps.eam, catalog
    ensures r == if !Removable(old(catalog[..]), position) then BadCatalog
                 else if !Releasable(old(file.maps.pfs[..]), pages) then Refused else Dropped
    ensures r == Dropped ==>
      && file.Valid() && BitsRemoved(old(file.maps.pfs[..]), file.maps.pfs[..], pages)
      && Tombstoned(old(file.pages), file.pages, pages)
      && Removable(old(catalog[..]), position) && catalog[..] == Removed(old(catalog[..]), position)
  {
    hide *;
    file.ValidParts();
    ghost var pg0, c0 := file.pages, catalog[..];
    file.Tombstone(pages);
    TombstonedParts(pg0, file.pages, pages, file.cap);
    EntryExists(c0, position);
    var e := RemoveCatalogEntry(catalog, position);
    if e != Edited { return BadCatalog; }
    ghost var changed;
    var released;
    released, changed := file.maps.FreePages(pages);
    if released.AlreadyFree? { return Refused; }
    file.MakeValid();
    r := Dropped;
  }

  lemma EntryExists(p: seq<byte>, position: nat)
    ensures Removable(p, position) <==> EditCheck(p) == Edited && position < ReadInt32(p, 1) / 272
    ensures Removable(p, position) ==> ReadInt32(p, 1) != 0
    ensures EditCheck(p) == Edited ==> |p| >= 10
  {
  }
}
