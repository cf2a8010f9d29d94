/** Dropping a table by the bytes of the file alone: the index pages and the roots of a table's index trees are parsed
    from its pages. */
module TableRoots {
  import opened Bits
  import opened Inflate
  import opened LittleEndian
  import opened AllocationMaps
  import opened PageAllocation
  import opened PageChains
  import opened InternalFiles
  import opened TableCatalog
  import opened TableDrop
  import B = BTreeLookup
  import C = SchemaColumns
  import E = SchemaEdits
  import R = SchemaRecords
  import S = SchemaStream

  const SCHEMA_KIND: nat := 8
  const INDEX_KIND: nat := 12
  const BTREE_HEADER_SIZE: nat := 18
  const SYSTEM_KEY_SIZE: nat := 4

  // -- index pages --------------------------------------------------------------------------------------

  datatype BTreeHeader = BTreeHeader(isRoot: bool, isLeaf: bool, right: int, keySize: nat, count: nat)
  {
    /** A leaf's entry holds a page and an item behind the key, an inner page's a page. */
    function Stride(): nat
    {
      keySize + if isLeaf then 6 else 4
    }
  }

  function ParseBTreeHeader(data: seq<byte>): Option<BTreeHeader>
  {
    if |data| < BTREE_HEADER_SIZE then None
    else Some(BTreeHeader(data[0] != 0, data[1] != 0, ReadInt32(data, 6), ReadLe16(data, 12), ReadLe16(data, 14)))
  }

  /** As many entries as the header says, but no more than the page can hold. */
  function EntryCount(data: seq<byte>, h: BTreeHeader): nat
    requires |data| >= BTREE_HEADER_SIZE
  {
    var room := (|data| - BTREE_HEADER_SIZE) / h.Stride();
    if h.count <= room then h.count else room
  }

  lemma EntryInside(data: seq<byte>, h: BTreeHeader, i: nat)
    requires |data| >= BTREE_HEADER_SIZE && i < EntryCount(data, h)
    ensures BTREE_HEADER_SIZE + i * h.Stride() + h.Stride() <= |data|
  {
    var room, s := (|data| - BTREE_HEADER_SIZE) / h.Stride(), h.Stride();
    InsideMultiple(i, room, s, |data| - BTREE_HEADER_SIZE);
  }

  lemma InsideMultiple(i: nat, room: nat, s: nat, n: nat)
    requires s > 0 && i < room && room == n / s
    ensures i * s + s <= n
  {
    assert (i + 1) * s <= room * s <= n;
  }

  function EntryAt(data: seq<byte>, h: BTreeHeader, i: nat): B.Entry
    requires |data| >= BTREE_HEADER_SIZE && i < EntryCount(data, h)
  {
    EntryInside(data, h, i);
    var off := BTREE_HEADER_SIZE + i * h.Stride();
    B.Entry(data[off..off + h.keySize], ReadInt32(data, off + h.keySize),
            if h.isLeaf then ReadLe16(data, off + h.keySize + 4) else 0)
  }

  function BTreeEntries(data: seq<byte>, h: BTreeHeader): (es: seq<B.Entry>)
    requires |data| >= BTREE_HEADER_SIZE
    ensures |es| == EntryCount(data, h)
  {
    seq(EntryCount(data, h), i requires 0 <= i < EntryCount(data, h) => EntryAt(data, h, i))
  }

  /** Reads the entries of an index page; a page without keys has none to read. */
  method ReadBTreeEntries(data: seq<byte>, h: BTreeHeader) returns (r: Option<seq<B.Entry>>)
    requires |data| >= BTREE_HEADER_SIZE
    ensures r == if h.keySize == 0 then None else Some(BTreeEntries(data, h))
  {
    if h.keySize == 0 { return None; }
    var count := EntryCount(data, h);
    var es: seq<B.Entry> := [];
    var i := 0;
    while i < count
      invariant i <= count && es == BTreeEntries(data, h)[..i]
    {
      es := es + [EntryAt(data, h, i)];
      i := i + 1;
    }
    assert BTreeEntries(data, h)[..count] == BTreeEntries(data, h);
    r := Some(es);
  }

  /** What a lookup sees of a page, whatever its type. */
  function AsIndexPage(b: PageBuf): B.IndexPage
  {
    match ParseBTreeHeader(b.payload)
    case None => B.Unreadable
    case Some(h) =>
      if h.keySize == 0 then B.Unreadable
      else if h.isLeaf then B.LeafPage(BTreeEntries(b.payload, h), h.right)
      else B.InnerPage(BTreeEntries(b.payload, h))
  }

  /** What a walk over a tree sees of a page: the entries of a leaf are not looked at. */
  function NodeOf(b: PageBuf): Node
  {
    if !b.header || b.kind != INDEX_KIND then NotIndex
    else
      match ParseBTreeHeader(b.payload)
      case None => Malformed
      case Some(h) =>
        if h.isLeaf then Leaf
        else if h.keySize == 0 then Malformed
        else Inner(Targets(BTreeEntries(b.payload, h)))
  }

  function Targets(es: seq<B.Entry>): seq<int>
  {
    seq(|es|, i requires 0 <= i < |es| => es[i].pageNo)
  }

  function NodesOf(pg: seq<PageBuf>): (r: seq<Node>)
    ensures |r| == |pg|
  {
    seq(|pg|, i requires 0 <= i < |pg| => NodeOf(pg[i]))
  }

  function IndexPagesOf(pg: seq<PageBuf>): (r: seq<B.IndexPage>)
    ensures |r| == |pg|
  {
    seq(|pg|, i requires 0 <= i < |pg| => AsIndexPage(pg[i]))
  }

  /** Parses one page both ways. */
  method ParsePage(b: PageBuf) returns (node: Node, page: B.IndexPage)
    ensures node == NodeOf(b) && page == AsIndexPage(b)
  {
    node, page := if b.header && b.kind == INDEX_KIND then Malformed else NotIndex, B.Unreadable;
    var h := ParseBTreeHeader(b.payload);
    if h.None? { return; }
    var es := ReadBTreeEntries(b.payload, h.value);
    if es.Some? {
      page := if h.value.isLeaf then B.LeafPage(es.value, h.value.right) else B.InnerPage(es.value);
    }
    if node == Malformed {
      if h.value.isLeaf { node := Leaf; } else if es.Some? { node := Inner(Targets(es.value)); }
    }
  }

  method ParsePages(pg: seq<PageBuf>) returns (nodes: seq<Node>, pages: seq<B.IndexPage>)
    ensures nodes == NodesOf(pg) && pages == IndexPagesOf(pg)
  {
    hide NodeOf, AsIndexPage;
    nodes, pages := [], [];
    var i := 0;
    while i < |pg|
      invariant i <= |pg| && nodes == NodesOf(pg)[..i] && pages == IndexPagesOf(pg)[..i]
    {
      var node, page := ParsePage(pg[i]);
      nodes, pages := nodes + [node], pages + [page];
      i := i + 1;
    }
  }

  // -- the schemas' index definitions -----------------------------------------------------------------------

  /** The schema on a page, if it can be read to its end. */
  function SchemaOn(pg: seq<PageBuf>, no: int): Option<S.Schema>
  {
    if no < 0 || no >= |pg| then None
    else
      match DecompressInternalFile(pg[no].payload)
      case None => None
      case Some(raw) => S.ParseStream(raw)
  }

  /** Its index definitions. */
  function RecordsOf(pg: seq<PageBuf>, no: int): Option<seq<R.IndexRecord>>
  {
    match SchemaOn(pg, no)
    case None => None
    case Some(x) => Some(x.indexes)
  }

  /** The columns the last definition of the root covers, or as before where none names it. */
  function LastColumns(rs: seq<R.IndexRecord>, no: int, was: nat): nat
  {
    if rs == [] then was
    else
      var last := rs[|rs| - 1];
      if Signed32(last.root % 0x1_0000_0000) == no then |last.columns| else LastColumns(rs[..|rs| - 1], no, was)
  }

  predicate Names(rs: seq<R.IndexRecord>, no: int)
  {
    exists i :: 0 <= i < |rs| && Signed32(rs[i].root % 0x1_0000_0000) == no
  }

  /** The same over the schemas of the first k pages. */
  function FileColumns(pg: seq<PageBuf>, k: nat, no: int): nat
    requires k <= |pg|
  {
    if k == 0 then 0
    else
      var was, b := FileColumns(pg, k - 1, no), pg[k - 1];
      if !b.header || b.kind != SCHEMA_KIND then was
      else
        match RecordsOf(pg, k - 1)
        case None => was
        case Some(rs) => LastColumns(rs, no, was)
  }

  /** The columns a root covers by all the definitions there are, the table's own last. */
  function ColumnsOf(pg: seq<PageBuf>, own: Option<seq<R.IndexRecord>>, no: int): nat
  {
    LastColumns(if own.Some? then own.value else [], no, FileColumns(pg, |pg|, no))
  }

  /** The schemas' definitions for one root, page by page. */
  method CountColumns(pg: seq<PageBuf>, own: Option<seq<R.IndexRecord>>, no: int) returns (n: nat)
    ensures n == ColumnsOf(pg, own, no)
  {
    hide RecordsOf, LastColumns;
    n := 0;
    var k := 0;
    while k < |pg|
      invariant k <= |pg| && n == FileColumns(pg, k, no)
    {
      if pg[k].header && pg[k].kind == SCHEMA_KIND {
        var rs := RecordsOf(pg, k);
        if rs.Some? { n := LastColumns(rs.value, no, n); }
      }
      k := k + 1;
    }
    n := LastColumns(if own.Some? then own.value else [], no, n);
  }

  // -- which roots are a table's ----------------------------------------------------------------------------

  /** The page is the root of some index tree. */
  predicate RootPage(pg: seq<PageBuf>, no: int)
  {
    && 0 <= no < |pg| && pg[no].header && pg[no].kind == INDEX_KIND
    && var h := ParseBTreeHeader(pg[no].payload); h.Some? && h.value.isRoot
  }

  /** An entry points at a data page of the table; one of a system index names it in its key. */
  predicate PointsAt(pg: seq<PageBuf>, id: int, e: B.Entry, system: bool)
  {
    if system then |e.key| >= 4 && DataPage(pg, id, ReadInt32(e.key, 0)) else DataPage(pg, id, e.pageNo)
  }

  predicate SystemRoot(pg: seq<PageBuf>, own: Option<seq<R.IndexRecord>>, no: int)
  {
    && ColumnsOf(pg, own, no) == 0 && 0 <= no < |pg|
    && var h := ParseBTreeHeader(pg[no].payload); h.Some? && h.value.keySize == SYSTEM_KEY_SIZE
  }

  function LeafEntries(pages: seq<B.IndexPage>, no: int): Option<seq<B.Entry>>
  {
    var leaf := B.LeftmostOf(pages, no, B.MAX_DEPTH);
    if leaf < 0 then None else Some(B.PageAt(pages, leaf).entries)
  }

  /** Whether the tree's first leaf points at the table's pages; None when the way there breaks off. */
  function References(pg: seq<PageBuf>, own: Option<seq<R.IndexRecord>>, id: int, no: int): Option<bool>
  {
    match LeafEntries(IndexPagesOf(pg), no)
    case None => None
    case Some(es) => Some(exists i :: 0 <= i < |es| && PointsAt(pg, id, es[i], SystemRoot(pg, own, no)))
  }

  method RootReferences(pg: seq<PageBuf>, pages: seq<B.IndexPage>, own: Option<seq<R.IndexRecord>>, id: int, no: nat)
      returns (r: Option<bool>)
    requires no < |pg| && pages == IndexPagesOf(pg)
    ensures r == References(pg, own, id, no)
  {
    hide IndexPagesOf, ColumnsOf, DataPage, B.LeftmostOf;
    var leaf := B.FindLeftmostLeaf(pages, no, (a, b) => 0);
    if leaf < 0 { return None; }
    var es := B.PageAt(pages, leaf).entries;
    var n := CountColumns(pg, own, no);
    var h := ParseBTreeHeader(pg[no].payload);
    var system := n == 0 && h.Some? && h.value.keySize == SYSTEM_KEY_SIZE;
    var i := 0;
    while i < |es|
      invariant i <= |es| && forall k :: 0 <= k < i ==> !PointsAt(pg, id, es[k], system)
    {
      if PointsAt(pg, id, es[i], system) { return Some(true); }
      i := i + 1;
    }
    r := Some(false);
  }

  /** Whether a root is the table's: all are when it is the only table, and those its schema names; of the others the
      first leaf decides. */
  function Kept(pg: seq<PageBuf>, t: TableInfo, sole: bool, no: int): Option<bool>
  {
    var own := RecordsOf(pg, t.schemaPage);
    if sole || (own.Some? && Names(own.value, no)) then Some(true) else References(pg, own, t.id, no)
  }

  /** Every root is decided. */
  ghost predicate Decided(pg: seq<PageBuf>, t: TableInfo, sole: bool)
  {
    forall no: int :: RootPage(pg, no) ==> Kept(pg, t, sole, no).Some?
  }

  ghost predicate OwnRoot(pg: seq<PageBuf>, t: TableInfo, sole: bool, no: int)
  {
    RootPage(pg, no) && Kept(pg, t, sole, no) == Some(true)
  }

  /** The table's index roots, by page: every root is looked at, and one that cannot be decided fails the whole. */
  method OpenIndex(pg: seq<PageBuf>, pages: seq<B.IndexPage>, t: TableInfo, sole: bool) returns (r: Option<seq<int>>)
    requires pages == IndexPagesOf(pg)
    ensures r.Some? <==> Decided(pg, t, sole)
    ensures r.Some? ==> forall no :: no in r.value <==> OwnRoot(pg, t, sole, no)
    ensures sole ==> r.Some? && forall no :: no in r.value <==> RootPage(pg, no)
    ensures r.Some? && RecordsOf(pg, t.schemaPage).Some? ==>
      forall no :: RootPage(pg, no) && Names(RecordsOf(pg, t.schemaPage).value, no) ==> no in r.value
  {
    hide RecordsOf, References, IndexPagesOf, Names, RootPage;
    var own := RecordsOf(pg, t.schemaPage);
    var roots: seq<int> := [];
    var no := 0;
    while no < |pg|
      invariant no <= |pg|
      invariant forall x: int :: 0 <= x < no && RootPage(pg, x) ==> Kept(pg, t, sole, x).Some?
      invariant forall x :: x in roots <==> 0 <= x < no && OwnRoot(pg, t, sole, x)
    {
      if RootPage(pg, no) {
        var mine: Option<bool> := Some(true);
        if !sole && !(own.Some? && Names(own.value, no)) { mine := RootReferences(pg, pages, own, t.id, no); }
        assert mine == Kept(pg, t, sole, no);
        if mine.None? { return None; }
        if mine.value { roots := roots + [no]; }
      }
      no := no + 1;
    }
    NoneBehind(pg);
    r := Some(roots);
  }

  lemma NoneBehind(pg: seq<PageBuf>)
    ensures forall x: int :: RootPage(pg, x) ==> 0 <= x < |pg|
  {
  }

  // -- one table ------------------------------------------------------------------------------------------

  /** The two page numbers the column definitions end with. */
  function SystemIndexRoots(pg: seq<PageBuf>, no: int): Option<(int, int)>
  {
    if no < 0 || no >= |pg| then None
    else
      match DecompressInternalFile(pg[no].payload)
      case None => None
      case Some(raw) =>
        if |raw| < 8 then None else Some((ReadInt32(raw, |raw| - 8), ReadInt32(raw, |raw| - 4)))
  }

  /** The page's content ends with these two page numbers, as they are written. */
  ghost predicate EndsWith(pg: seq<PageBuf>, no: int, recordRoot: nat, blobRoot: nat)
  {
    && 0 <= no < |pg| && recordRoot < 0x1_0000_0000 && blobRoot < 0x1_0000_0000
    && exists body: seq<byte> ::
      DecompressInternalFile(pg[no].payload) == Some(body + (Le32(recordRoot) + Le32(blobRoot)))
  }

  lemma ReadBoth(body: seq<byte>, a: nat, b: nat)
    requires a < 0x1_0000_0000 && b < 0x1_0000_0000
    ensures var raw := body + (Le32(a) + Le32(b));
      ReadInt32(raw, |raw| - 8) == Signed32(a) && ReadInt32(raw, |raw| - 4) == Signed32(b)
  {
    hide Le32, ReadLe32;
    var raw := body + (Le32(a) + Le32(b));
    Le32Reads(a);
    Le32Reads(b);
    assert raw[|raw| - 8..][..4] == Le32(a)[0..4] && raw[|raw| - 8..][4..8] == Le32(b)[0..4];
    assert raw[|raw| - 8..|raw| - 8 + 4] == raw[|raw| - 8..][..4];
    assert raw[|raw| - 4..|raw| - 4 + 4] == raw[|raw| - 8..][4..8];
    ReadSame(raw, |raw| - 8, Le32(a), 0);
    ReadSame(raw, |raw| - 4, Le32(b), 0);
  }

  /** What was written last reads back, the root of the records first and that of the BLOBs behind it. */
  lemma RootsWritten(pg: seq<PageBuf>, no: int, recordRoot: nat, blobRoot: nat)
    requires EndsWith(pg, no, recordRoot, blobRoot)
    ensures SystemIndexRoots(pg, no) == Some((Signed32(recordRoot), Signed32(blobRoot)))
  {
    hide DecompressInternalFile, Le32, ReadLe32, Signed32;
    var body :| DecompressInternalFile(pg[no].payload) == Some(body + (Le32(recordRoot) + Le32(blobRoot)));
    ReadBoth(body, recordRoot, blobRoot);
  }

  /** The stream of a new table gives the root it was written with, and no BLOBs. */
  lemma BuiltRoots(pg: seq<PageBuf>, no: int, columns: seq<C.Column>, indexes: seq<R.IndexRecord>,
                   constraints: seq<R.Constraint>, root: nat)
    requires 0 <= no < |pg| && root < 0x1_0000_0000
    requires DecompressInternalFile(pg[no].payload) == Some(S.BuildStream(columns, indexes, constraints, root))
    ensures SystemIndexRoots(pg, no) == Some((Signed32(root), -1))
  {
    hide DecompressInternalFile, Le32, ReadLe32, S.ArraysC;
    var body := S.ArraysC().write((((), columns), (((), indexes), ((), constraints))));
    ReadBoth(body, root, S.NO_PAGE);
  }

  /** On a page whose schema can be read the two are the schema's own, and the second names a page exactly when the
      table has BLOB pages. */
  lemma RootsParsed(pg: seq<PageBuf>, no: int)
    requires SchemaOn(pg, no).Some?
    ensures var x := SchemaOn(pg, no).value;
      && |x.roots| == 8 && SystemIndexRoots(pg, no) == Some((ReadInt32(x.roots, 0), ReadInt32(x.roots, 4)))
      && (ReadInt32(x.roots, 4) >= 0 <==> E.HasBlobPages(x))
  {
    hide *;
    SchemaSteps(pg, no);
    var raw := DecompressInternalFile(pg[no].payload).value;
    StreamTail(raw);
    var x := SchemaOn(pg, no).value;
    BothFrom(raw, x);
  }

  lemma SchemaSteps(pg: seq<PageBuf>, no: int)
    requires SchemaOn(pg, no).Some?
    ensures 0 <= no < |pg| && DecompressInternalFile(pg[no].payload).Some?
    ensures var raw := DecompressInternalFile(pg[no].payload).value;
      && S.ParseStream(raw) == SchemaOn(pg, no)
      && SystemIndexRoots(pg, no) ==
         if |raw| < 8 then None else Some((ReadInt32(raw, |raw| - 8), ReadInt32(raw, |raw| - 4)))
  {
    hide DecompressInternalFile, S.ParseStream, ReadInt32;
  }

  lemma BothFrom(raw: seq<byte>, x: S.Schema)
    requires |raw| >= 8 && x.roots == raw[|raw| - 8..]
    ensures ReadInt32(raw, |raw| - 8) == ReadInt32(x.roots, 0) && ReadInt32(raw, |raw| - 4) == ReadInt32(x.roots, 4)
    ensures ReadInt32(x.roots, 4) >= 0 <==> E.HasBlobPages(x)
  {
    hide ReadLe32, Signed32;
    assert x.roots[0..4] == raw[|raw| - 8..|raw| - 8 + 4] && x.roots[4..8] == raw[|raw| - 4..|raw| - 4 + 4];
    ReadSame(raw, |raw| - 8, x.roots, 0);
    ReadSame(raw, |raw| - 4, x.roots, 4);
  }

  lemma StreamTail(raw: seq<byte>)
    requires S.ParseStream(raw).Some?
    ensures |raw| >= 8 && S.ParseStream(raw).value.roots == raw[|raw| - 8..]
  {
  }

  /** What a descriptor says of the two roots, by what the schema's page holds. */
  ghost predicate RootsTold(pg: seq<PageBuf>, no: int, d: TableDesc)
  {
    && (SchemaOn(pg, no).Some? ==>
          var x := SchemaOn(pg, no).value;
          |x.roots| == 8 && ReadInt32(x.roots, 0) in d.roots && (d.blobRoot >= 0 <==> E.HasBlobPages(x)))
    && forall a, b :: EndsWith(pg, no, a, b) ==> Signed32(a) in d.roots && d.blobRoot == Signed32(b)
  }

  lemma MakeRootsTold(pg: seq<PageBuf>, no: int, d: TableDesc)
    requires SystemIndexRoots(pg, no).Some? && d.blobRoot == SystemIndexRoots(pg, no).value.1
    requires SystemIndexRoots(pg, no).value.0 in d.roots
    ensures RootsTold(pg, no, d)
  {
    hide SchemaOn, SystemIndexRoots, EndsWith, E.HasBlobPages, Signed32;
    if SchemaOn(pg, no).Some? { RootsParsed(pg, no); }
    forall a, b | EndsWith(pg, no, a, b)
      ensures Signed32(a) in d.roots && d.blobRoot == Signed32(b)
    {
      RootsWritten(pg, no, a, b);
    }
  }

  /** The entry a name leads to: the first of that name, and without one the only table. */
  function TableFor(listed: seq<TableInfo>, name: seq<byte>, same: E.Same): Option<TableInfo>
  {
    if name == [] then if |listed| == 1 then Some(listed[0]) else None
    else
      match E.Find(NamesOf(listed), name, same)
      case None => None
      case Some(i) => Some(listed[i])
  }

  function NamesOf(listed: seq<TableInfo>): (r: seq<seq<byte>>)
    ensures |r| == |listed|
  {
    seq(|listed|, i requires 0 <= i < |listed| => listed[i].name)
  }

  /** The roots and descriptor of a listed table can be told, and the descriptor says what they are. */
  ghost predicate DescribedBy(pg: seq<PageBuf>, listed: seq<TableInfo>, info: TableInfo, same: E.Same, d: TableDesc)
  {
    var t := TableFor(listed, info.name, same);
    && t.Some?
    && var roots := SystemIndexRoots(pg, t.value.schemaPage);
    && roots.Some? && Decided(pg, t.value, |listed| == 1)
    && d.id == info.id && d.starts == [info.systemPage, info.schemaPage, info.infoPage] && d.blobRoot == roots.value.1
    && forall no :: no in d.roots <==> no == roots.value.0 || OwnRoot(pg, t.value, |listed| == 1, no)
  }

  ghost predicate Describable(pg: seq<PageBuf>, listed: seq<TableInfo>, info: TableInfo, same: E.Same)
  {
    var t := TableFor(listed, info.name, same);
    t.Some? && SystemIndexRoots(pg, t.value.schemaPage).Some? && Decided(pg, t.value, |listed| == 1)
  }

  lemma DescribeSteps(pg: seq<PageBuf>, listed: seq<TableInfo>, info: TableInfo, same: E.Same)
    ensures Describable(pg, listed, info, same) <==>
      match TableFor(listed, info.name, same)
      case None => false
      case Some(t) => SystemIndexRoots(pg, t.schemaPage).Some? && Decided(pg, t, |listed| == 1)
  {
    hide TableFor, SystemIndexRoots, Decided;
  }

  lemma MakeDescribed(pg: seq<PageBuf>, listed: seq<TableInfo>, info: TableInfo, same: E.Same, t: TableInfo,
                      system: (int, int), roots: seq<int>, d: TableDesc)
    requires TableFor(listed, info.name, same) == Some(t) && SystemIndexRoots(pg, t.schemaPage) == Some(system)
    requires Decided(pg, t, |listed| == 1) && forall no :: no in roots <==> OwnRoot(pg, t, |listed| == 1, no)
    requires d.id == info.id && d.starts == [info.systemPage, info.schemaPage, info.infoPage]
    requires d.roots == [system.0] + roots && d.blobRoot == system.1
    ensures DescribedBy(pg, listed, info, same, d) && system.0 in d.roots
  {
    hide TableFor, SystemIndexRoots, Decided, OwnRoot;
  }

  method Describe(pg: seq<PageBuf>, pages: seq<B.IndexPage>, listed: seq<TableInfo>, info: TableInfo, same: E.Same)
      returns (r: Option<TableDesc>)
    requires pages == IndexPagesOf(pg)
    ensures r.Some? <==> Describable(pg, listed, info, same)
    ensures r.Some? ==> DescribedBy(pg, listed, info, same, r.value)
    ensures r.Some? ==> RootsTold(pg, TableFor(listed, info.name, same).value.schemaPage, r.value)
  {
    hide *;
    DescribeSteps(pg, listed, info, same);
    var t := TableFor(listed, info.name, same);
    if t.None? { return None; }
    var system := SystemIndexRoots(pg, t.value.schemaPage);
    if system.None? { return None; }
    var roots := OpenIndex(pg, pages, t.value, |listed| == 1);
    if roots.None? { return None; }
    r := Some(TableDesc(info.id, [info.systemPage, info.schemaPage, info.infoPage], [system.value.0] + roots.value,
                        system.value.1));
    MakeDescribed(pg, listed, info, same, t.value, system.value, roots.value, r.value);
    MakeRootsTold(pg, t.value.schemaPage, r.value);
  }

  /** All listed tables are told apart from the bytes of the file. */
  ghost predicate AllDescribed(pg: seq<PageBuf>, listed: seq<TableInfo>, same: E.Same, tables: seq<TableDesc>)
  {
    |tables| == |listed| && forall i :: 0 <= i < |listed| ==> DescribedBy(pg, listed, listed[i], same, tables[i])
  }

  method DescribeAll(pg: seq<PageBuf>, pages: seq<B.IndexPage>, listed: seq<TableInfo>, same: E.Same)
      returns (r: Option<seq<TableDesc>>)
    requires pages == IndexPagesOf(pg)
    ensures r.Some? <==> forall i :: 0 <= i < |listed| ==> Describable(pg, listed, listed[i], same)
    ensures r.Some? ==> AllDescribed(pg, listed, same, r.value)
  {
    hide Describable, DescribedBy, IndexPagesOf, RootsTold, TableFor;
    var tables: seq<TableDesc> := [];
    var i := 0;
    while i < |listed|
      invariant i <= |listed| && |tables| == i
      invariant forall k :: 0 <= k < i ==> Describable(pg, listed, listed[k], same)
      invariant forall k :: 0 <= k < i ==> DescribedBy(pg, listed, listed[k], same, tables[k])
    {
      var d := Describe(pg, pages, listed, listed[i], same);
      if d.None? { return None; }
      tables := tables + [d.value];
      i := i + 1;
    }
    r := Some(tables);
  }

  lemma DescribedDescribes(pg: seq<PageBuf>, listed: seq<TableInfo>, same: E.Same, tables: seq<TableDesc>)
    requires AllDescribed(pg, listed, same, tables)
    ensures Describes(listed, tables)
  {
    hide TableFor, SystemIndexRoots, Decided, OwnRoot;
    forall i | 0 <= i < |listed|
      ensures tables[i].id == listed[i].id
      ensures tables[i].starts == [listed[i].systemPage, listed[i].schemaPage, listed[i].infoPage]
    {
      assert DescribedBy(pg, listed, listed[i], same, tables[i]);
    }
  }

  /** The verdict of dropping a table by name, by the bytes of the file alone. */
  ghost predicate Verdict(pg: seq<PageBuf>, catalog: seq<byte>, name: seq<byte>, same: E.Same, tables: seq<TableDesc>,
                          r: DropResult)
  {
    match Tables(catalog)
    case None => r == BadCatalog
    case Some(listed) =>
      match E.Find(NamesOf(listed), name, same)
      case None => r == NoTable
      case Some(i) =>
        if exists k :: 0 <= k < |listed| && !Describable(pg, listed, listed[k], same) then r == WalkFailed
        else
          && AllDescribed(pg, listed, same, tables)
          && var check := DropCheck(pg, NodesOf(pg), tables, i);
          if check != Dropped then r == check else r in {Dropped, BadCatalog, Refused}
  }

  /** Once nothing stands against the drop, the pages claimed under the table's id are what is to be freed; the rest is
      up to the catalog and the map of pages. */
  ghost predicate Attempted(pg: seq<PageBuf>, pfs: seq<bv8>, catalog: seq<byte>, name: seq<byte>, same: E.Same,
                            tables: seq<TableDesc>, freed: seq<nat>, r: DropResult)
  {
    Tables(catalog).Some? && r in {Dropped, BadCatalog, Refused} ==>
      var listed := Tables(catalog).value;
      var i := E.Find(NamesOf(listed), name, same);
      && i.Some? && DropsExactly(pg, NodesOf(pg), tables, listed[i.value].id, freed)
      && r == (if !Removable(catalog, i.value) then BadCatalog
               else if !Releasable(pfs, freed) then Refused else Dropped)
  }

  /** The last of the tables with an id. */
  ghost predicate LastOfId(listed: seq<TableInfo>, j: nat, id: int)
  {
    j < |listed| && listed[j].id == id && forall k :: j < k < |listed| ==> listed[k].id != id
  }

  /** The schema that the name of a listed table leads to. */
  ghost function SchemaFor(pg: seq<PageBuf>, listed: seq<TableInfo>, j: nat, same: E.Same): Option<S.Schema>
  {
    if j >= |listed| then None
    else
      match TableFor(listed, listed[j].name, same)
      case None => None
      case Some(t) => SchemaOn(pg, t.schemaPage)
  }

  lemma {:induction false} LastBlobRoot(tables: seq<TableDesc>, j: nat, id: int)
    requires j < |tables| && tables[j].id == id && forall k :: j < k < |tables| ==> tables[k].id != id
    ensures BlobRoot(tables, id) == tables[j].blobRoot
  {
    if j < |tables| - 1 { LastBlobRoot(tables[..|tables| - 1], j, id); }
  }

  /** The check for BLOB pages asks what the schema of the last table of that id says. */
  lemma BlobsBySchema(pg: seq<PageBuf>, listed: seq<TableInfo>, same: E.Same, tables: seq<TableDesc>, j: nat, id: int)
    requires AllDescribed(pg, listed, same, tables) && LastOfId(listed, j, id) && SchemaFor(pg, listed, j, same).Some?
    ensures BlobRoot(tables, id) >= 0 <==> E.HasBlobPages(SchemaFor(pg, listed, j, same).value)
  {
    hide TableFor, SystemIndexRoots, Decided, OwnRoot, SchemaOn, E.HasBlobPages;
    assert DescribedBy(pg, listed, listed[j], same, tables[j]);
    forall k | j < k < |tables|
      ensures tables[k].id != id
    {
      assert DescribedBy(pg, listed, listed[k], same, tables[k]);
    }
    LastBlobRoot(tables, j, id);
    RootsParsed(pg, TableFor(listed, listed[j].name, same).value.schemaPage);
  }

  /** A drop is refused for BLOB pages only where the schema says there are, and gets past that only where it says there
      are none. */
  ghost predicate BlobsTold(pg: seq<PageBuf>, catalog: seq<byte>, name: seq<byte>, same: E.Same, r: DropResult)
  {
    Tables(catalog).Some? && E.Find(NamesOf(Tables(catalog).value), name, same).Some? ==>
      var listed := Tables(catalog).value;
      var i := E.Find(NamesOf(listed), name, same).value;
      forall j: nat :: LastOfId(listed, j, listed[i].id) && SchemaFor(pg, listed, j, same).Some? ==>
        var x := SchemaFor(pg, listed, j, same).value;
        && (r == HasBlobs ==> E.HasBlobPages(x))
        && (r in {Unattributed, LastTable, Dropped, BadCatalog, Refused} ==> !E.HasBlobPages(x))
  }

  lemma BlobsToldBy(pg: seq<PageBuf>, catalog: seq<byte>, name: seq<byte>, same: E.Same, tables: seq<TableDesc>,
                    r: DropResult)
    requires Verdict(pg, catalog, name, same, tables, r)
    ensures BlobsTold(pg, catalog, name, same, r)
  {
    hide Tables, E.Find, TableFor, Describable, AllDescribed, SchemaFor, LastOfId, E.HasBlobPages, BlobRoot, Orphan,
      Attributable, NodesOf;
    if Tables(catalog).Some? && E.Find(NamesOf(Tables(catalog).value), name, same).Some? {
      var listed := Tables(catalog).value;
      var i := E.Find(NamesOf(listed), name, same).value;
      FoundListed(listed, name, same);
      if r in {HasBlobs, Unattributed, LastTable, Dropped, BadCatalog, Refused} {
        DescribedIds(pg, listed, same, tables, i);
        forall j: nat | LastOfId(listed, j, listed[i].id) && SchemaFor(pg, listed, j, same).Some?
          ensures BlobRoot(tables, listed[i].id) >= 0 <==> E.HasBlobPages(SchemaFor(pg, listed, j, same).value)
        {
          BlobsBySchema(pg, listed, same, tables, j, listed[i].id);
        }
      }
    }
  }

  /** Nothing is said before the table is found and everything described. */
  lemma NoneTold(pg: seq<PageBuf>, catalog: seq<byte>, name: seq<byte>, same: E.Same)
    ensures Tables(catalog).None? ==> BlobsTold(pg, catalog, name, same, BadCatalog)
    ensures forall ts, r :: r !in {Dropped, Refused} ==> TriedOnly(pg, catalog, name, same, ts, r)
    ensures BlobsTold(pg, catalog, name, same, NoTable) && BlobsTold(pg, catalog, name, same, WalkFailed)
  {
    hide Tables, E.Find, SchemaFor, LastOfId, E.HasBlobPages, Droppable;
  }

  lemma FoundListed(listed: seq<TableInfo>, name: seq<byte>, same: E.Same)
    requires E.Find(NamesOf(listed), name, same).Some?
    ensures E.Find(NamesOf(listed), name, same).value < |listed|
  {
    hide E.Find;
  }

  /** The catalog lists the tables it listed but for the first of that name. */
  ghost predicate Shortened(before: seq<byte>, after: seq<byte>, name: seq<byte>, same: E.Same)
  {
    && Tables(before).Some?
    && var listed := Tables(before).value;
    && var i := E.Find(NamesOf(listed), name, same);
    && i.Some? && Tables(after) == Some(listed[..i.value] + listed[i.value + 1..])
  }

  lemma MakeAttempted(pg: seq<PageBuf>, pfs: seq<bv8>, catalog: seq<byte>, name: seq<byte>, same: E.Same,
                      tables: seq<TableDesc>, freed: seq<nat>, r: DropResult, i: nat)
    requires Tables(catalog).Some? && E.Find(NamesOf(Tables(catalog).value), name, same) == Some(i)
    requires r in {Dropped, BadCatalog, Refused} ==>
      && DropsExactly(pg, NodesOf(pg), tables, Tables(catalog).value[i].id, freed)
      && r == (if !Removable(catalog, i) then BadCatalog else if !Releasable(pfs, freed) then Refused else Dropped)
    ensures Attempted(pg, pfs, catalog, name, same, tables, freed, r)
  {
    hide Tables, E.Find, DropsExactly, Removable, Releasable, NodesOf;
  }

  lemma MakeShortened(before: seq<byte>, after: seq<byte>, name: seq<byte>, same: E.Same, i: nat)
    requires Tables(before).Some? && E.Find(NamesOf(Tables(before).value), name, same) == Some(i)
    requires var listed := Tables(before).value; Tables(after) == Some(listed[..i] + listed[i + 1..])
    ensures Shortened(before, after, name, same)
  {
    hide Tables, E.Find;
  }

  /** A drop is tried only where nothing stands against it. */
  ghost predicate TriedOnly(pg: seq<PageBuf>, catalog: seq<byte>, name: seq<byte>, same: E.Same, tables: seq<TableDesc>,
                            r: DropResult)
  {
    r in {Dropped, Refused} ==>
      && Tables(catalog).Some?
      && var i := E.Find(NamesOf(Tables(catalog).value), name, same);
      && i.Some? && |tables| == |Tables(catalog).value| && Droppable(pg, NodesOf(pg), tables, i.value)
  }

  lemma TriedBy(pg: seq<PageBuf>, catalog: seq<byte>, name: seq<byte>, same: E.Same, tables: seq<TableDesc>, i: nat,
                r: DropResult)
    requires Tables(catalog).Some? && E.Find(NamesOf(Tables(catalog).value), name, same) == Some(i)
    requires |tables| == |Tables(catalog).value|
    requires r in {Dropped, Refused} ==> Droppable(pg, NodesOf(pg), tables, i)
    ensures TriedOnly(pg, catalog, name, same, tables, r)
  {
    hide Tables, E.Find, Droppable;
  }

  /** No table, no attempt. */
  lemma NotAttempted(pg: seq<PageBuf>, pfs: seq<bv8>, catalog: seq<byte>, name: seq<byte>, same: E.Same)
    ensures forall ts, freed :: Attempted(pg, pfs, catalog, name, same, ts, freed, NoTable)
    ensures forall ts, freed :: Attempted(pg, pfs, catalog, name, same, ts, freed, WalkFailed)
    ensures Tables(catalog).None? ==>
      forall ts, freed :: Attempted(pg, pfs, catalog, name, same, ts, freed, BadCatalog)
  {
    hide Tables, E.Find, DropsExactly, Removable, Releasable, NodesOf;
  }

  /** Drops a table by its name. The verdict is told by the pages and the catalog; when the table is dropped, exactly
      the pages claimed under its id are free, and the catalog lists the other tables. */
  method DropTableNamed(file: ChainFile, catalog: array<byte>, name: seq<byte>, same: E.Same)
      returns (r: DropResult, ghost tables: seq<TableDesc>, ghost freed: seq<nat>)
    requires file.Valid() && catalog.Length < 0x10_0000
    requires catalog as object != file.maps.pfs as object && catalog as object != file.maps.eam as object
    modifies file, file.maps, file.maps.pfs, file.maps.eam, catalog
    ensures Verdict(old(file.pages), old(catalog[..]), name, same, tables, r)
    ensures BlobsTold(old(file.pages), old(catalog[..]), name, same, r)
    ensures TriedOnly(old(file.pages), old(catalog[..]), name, same, tables, r)
    ensures Attempted(old(file.pages), old(file.maps.pfs[..]), old(catalog[..]), name, same, tables, freed, r)
    ensures r == Dropped ==>
      && file.Valid() && BitsRemoved(old(file.maps.pfs[..]), file.maps.pfs[..], freed)
      && Tombstoned(old(file.pages), file.pages, freed) && Shortened(old(catalog[..]), catalog[..], name, same)
  {
    hide *;
    tables, freed := [], [];
    ghost var pg, c0 := file.pages, catalog[..];
    VerdictSteps(pg, c0, name, same);
    NotAttempted(pg, file.maps.pfs[..], c0, name, same);
    NoneTold(pg, c0, name, same);
    var listed := Tables(catalog[..]);
    if listed.None? { return BadCatalog, tables, freed; }
    var position := E.Find(NamesOf(listed.value), name, same);
    if position.None? { return NoTable, tables, freed; }
    var nodes, pages := ParsePages(file.pages);
    var descs := DescribeAll(file.pages, pages, listed.value, same);
    if descs.None? { return WalkFailed, tables, freed; }
    tables := descs.value;
    DescribedDescribes(pg, listed.value, same, tables);
    DescribedIds(pg, listed.value, same, tables, position.value);
    CheckSteps(pg, nodes, tables, position.value);
    ghost var owned, pfs := Ownership(map[], []), file.maps.pfs[..];
    r, freed, owned := DropTable(file, catalog, nodes, listed.value, descs.value, position.value);
    MakeAttempted(pg, pfs, c0, name, same, tables, freed, r, position.value);
    BlobsToldBy(pg, c0, name, same, tables, r);
    TriedBy(pg, c0, name, same, tables, position.value, r);
    if r == Dropped { MakeShortened(c0, catalog[..], name, same, position.value); }
  }

  lemma DescribedIds(pg: seq<PageBuf>, listed: seq<TableInfo>, same: E.Same, tables: seq<TableDesc>, i: nat)
    requires AllDescribed(pg, listed, same, tables) && i < |listed|
    ensures |tables| == |listed| && tables[i].id == listed[i].id
  {
    hide TableFor, SystemIndexRoots, Decided, OwnRoot;
    assert DescribedBy(pg, listed, listed[i], same, tables[i]);
  }

  lemma VerdictSteps(pg: seq<PageBuf>, catalog: seq<byte>, name: seq<byte>, same: E.Same)
    ensures Tables(catalog).None? ==> forall ts :: Verdict(pg, catalog, name, same, ts, BadCatalog)
    ensures Tables(catalog).Some? ==>
      var listed := Tables(catalog).value;
      match E.Find(NamesOf(listed), name, same)
      case None => forall ts :: Verdict(pg, catalog, name, same, ts, NoTable)
      case Some(i) =>
        && i < |listed| && |NamesOf(listed)| == |listed|
        && forall ts, r :: Verdict(pg, catalog, name, same, ts, r) <==>
          if exists k :: 0 <= k < |listed| && !Describable(pg, listed, listed[k], same) then r == WalkFailed
          else
            && AllDescribed(pg, listed, same, ts)
            && var check := DropCheck(pg, NodesOf(pg), ts, i);
            if check != Dropped then r == check else r in {Dropped, BadCatalog, Refused}
  {
    hide Tables, E.Find, Describable, AllDescribed, DropCheck, NodesOf;
  }
}
