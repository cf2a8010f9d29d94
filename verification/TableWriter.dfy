/** Writing a table: records in fixed slots of data pages, index leaves kept in step, counters brought
    forward at commit. */
module TableWriting {
  import opened Bits
  import opened Inflate
  import opened BTreeLookup
  import opened IndexLeaves
  import opened IndexedRows
  import opened SlotPages

  datatype Outcome = Accepted | Closed | NoRecord | Refused | LeafFull | NullKey | DuplicateKey | NoSpace | TableFull
    | SlotOccupied | Mismatch

  /** What the schema says of an index; its leaf holds the key size and the comparison. */
  datatype Index = Index(unique: bool, primary: bool, keyOf: Record -> Key, hasNull: Key -> bool)

  // -- the writer ----------------------------------------------------------------------------------------------

  /** A page the allocator found, with what its bytes say under this table's layout. */
  datatype SparePage = SparePage(no: int, page: DataPage)

  /** What a check of one key against one index says. */
  ghost function KeyCheck(ix: Index, es: seq<Entry>, cmp: (Key, Key) -> int, rec: Record,
      before: Option<Record>): Outcome
  {
    if !ix.unique || (before.Some? && cmp(ix.keyOf(before.value), ix.keyOf(rec)) == 0) then Accepted
    else if ix.primary && ix.hasNull(ix.keyOf(rec)) then NullKey
    else if Has(es, ix.keyOf(rec), cmp) then DuplicateKey else Accepted
  }

  lemma CheckIs(ix: Index, es: seq<Entry>, cmp: (Key, Key) -> int, rec: Record, before: Option<Record>)
    ensures KeyCheck(ix, es, cmp, rec, before) ==
      if !ix.unique || (before.Some? && cmp(ix.keyOf(before.value), ix.keyOf(rec)) == 0) then Accepted
      else if ix.primary && ix.hasNull(ix.keyOf(rec)) then NullKey
      else if Has(es, ix.keyOf(rec), cmp) then DuplicateKey else Accepted
  {
  }

  /** A leaf after a record was changed: its entry moves when the key's bytes change. */
  ghost function Replaced(es: seq<Entry>, ix: Index, cmp: (Key, Key) -> int, id: RecordID, before: Record,
      rec: Record): seq<Entry>
    requires id.slot >= 0 && At(es, id) < |es|
  {
    if ix.keyOf(before) == ix.keyOf(rec) then es
    else Inserted(Without(es, At(es, id)), EntryFor(ix.keyOf(rec), id), cmp)
  }

  lemma ReplacedIs(es: seq<Entry>, ix: Index, cmp: (Key, Key) -> int, id: RecordID, before: Record, rec: Record)
    requires id.slot >= 0 && At(es, id) < |es|
    ensures Replaced(es, ix, cmp, id, before, rec) ==
      if ix.keyOf(before) == ix.keyOf(rec) then es
      else Inserted(Without(es, At(es, id)), EntryFor(ix.keyOf(rec), id), cmp)
  {
  }

  /** Takes the record's entry out and puts it in again under a new key. */
  method MoveEntry(leaf: IndexLeaf, id: RecordID, key: Key) returns (r: LeafResult)
    requires leaf.Valid() && |key| == leaf.keySize && 0 <= id.pageNo <= 0x7fff_ffff && 0 <= id.slot < 65536
    requires At(leaf.Contents(), id) < |leaf.Contents()|
    modifies leaf.payload
    ensures leaf.Valid() && r == Done
    ensures leaf.Contents() == Inserted(Without(old(leaf.Contents()), At(old(leaf.Contents()), id)), EntryFor(key, id),
        leaf.cmp)
  {
    hide IndexLeaf.Valid, IndexLeaf.Contents, Inserted, Without, HasRoom, LeafOk, Entries, FirstAt, RemovedBytes;
    r := leaf.Remove(id.pageNo, id.slot);
    if r == Done { r := leaf.Insert(key, id.pageNo, id.slot); }
  }

  lemma KeptSize(es: seq<Entry>, rows: Rows, born: Births, clock: nat, unique: bool, cmp: (Key, Key) -> int,
      keyOf: Record -> Key)
    requires Kept(es, rows, born, clock, unique, cmp, keyOf)
    ensures |es| == |rows|
  {
    hide Agrees, TiesByBirth;
    SizeAgrees(es, rows, unique, cmp, keyOf);
  }

  /** There is room in a leaf when an entry more than it holds ends inside its page. */
  lemma RoomCounted(leaf: IndexLeaf)
    requires leaf.Valid()
    ensures HasRoom(leaf.payload[..], leaf.keySize)
      <==> 18 + (|leaf.Contents()| + 1) * (leaf.keySize + 6) <= leaf.payload.Length
  {
  }

  lemma LaterClock(es: seq<Entry>, rows: Rows, born: Births, clock: nat, unique: bool, cmp: (Key, Key) -> int,
      keyOf: Record -> Key)
    requires Kept(es, rows, born, clock, unique, cmp, keyOf)
    ensures Kept(es, rows, born, clock + 1, unique, cmp, keyOf)
  {
    hide Sorted, Current, OncePerRow, Complete, NoTies;
  }

  lemma FreeInside(dataPages: seq<int>, pages: Pages, n: nat, at: nat, id: RecordID)
    requires Shaped(dataPages, pages, n) && FirstFree(dataPages, pages, at, id)
    ensures 0 <= id.slot < n
  {
  }

  /** The index's counts are right for the pages where records came or went. */
  ghost predicate ChangedTrue(index: seq<PageCount>, delta: map<int, int>, atOpen: map<int, nat>)
  {
    forall i :: 0 <= i < |index| && Change(delta, index[i].pageNo) != 0 ==> CountTrue(index[i], atOpen)
  }

  /** A leaf that agrees with the records kept has no entry for any other. */
  lemma Unindexed(es: seq<Entry>, kept: Rows, rows: Rows, born: Births, clock: nat, unique: bool,
                  cmp: (Key, Key) -> int, keyOf: Record -> Key, p: RecordID)
    requires Kept(es, kept, born, clock, unique, cmp, keyOf) && p !in kept && p in rows
    ensures !Kept(es, rows, born, clock, unique, cmp, keyOf)
  {
    hide Sorted, OncePerRow, NoTies, TiesByBirth, Target;
    assert At(es, p) == |es|;
  }

  // -- runs ------------------------------------------------------------------------------------------------------

  datatype Op = InsertOp(rec: Record) | UpdateOp(id: RecordID, rec: Record)
    | UpdateColumnOp(id: RecordID, encode: Record -> Option<Record>) | DeleteOp(id: RecordID)

  /** One operation of a run, what became of it, and the place it used. */
  datatype Step = Step(op: Op, outcome: Outcome, id: RecordID)

  /** The records after a step. */
  ghost function StepRows(rows: Rows, step: Step): Rows
  {
    if step.outcome != Accepted then rows
    else
      match step.op
      case InsertOp(rec) => rows[step.id := rec]
      case UpdateOp(id, rec) => rows[id := rec]
      case UpdateColumnOp(id, encode) =>
        if id in rows && encode(rows[id]).Some? then rows[id := encode(rows[id]).value] else rows
      case DeleteOp(id) => rows - {id}
  }

  /** An accepted insert takes a free place; whatever else is accepted finds a record. */
  ghost predicate Sensible(rows: Rows, step: Step)
  {
    step.outcome == Accepted ==>
      match step.op
      case InsertOp(_) => step.id !in rows
      case UpdateOp(id, _) => id in rows
      case UpdateColumnOp(id, encode) => id in rows && encode(rows[id]).Some?
      case DeleteOp(id) => id in rows
  }

  ghost function Replayed(rows: Rows, log: seq<Step>): Rows
  {
    if log == [] then rows else StepRows(Replayed(rows, log[..|log| - 1]), log[|log| - 1])
  }

  ghost predicate AllSensible(rows: Rows, log: seq<Step>)
  {
    log == [] ||
    (AllSensible(rows, log[..|log| - 1]) && Sensible(Replayed(rows, log[..|log| - 1]), log[|log| - 1]))
  }

  ghost function AcceptedSteps(log: seq<Step>): nat
  {
    if log == [] then 0 else AcceptedSteps(log[..|log| - 1]) + if log[|log| - 1].outcome == Accepted then 1 else 0
  }

  lemma Replay(rows: Rows, log: seq<Step>, step: Step)
    ensures Replayed(rows, log + [step]) == StepRows(Replayed(rows, log), step)
    ensures AllSensible(rows, log) && Sensible(Replayed(rows, log), step) ==> AllSensible(rows, log + [step])
    ensures AcceptedSteps(log + [step]) == AcceptedSteps(log) + if step.outcome == Accepted then 1 else 0
  {
    assert (log + [step])[..|log|] == log;
  }

  lemma {:induction false} StepsBound(log: seq<Step>)
    ensures AcceptedSteps(log) <= |log|
  {
    if log != [] { StepsBound(log[..|log| - 1]); }
  }

  lemma SumGrown(index: seq<PageCount>, no: int)
    ensures SumCounts(index + [PageCount(no, 0)]) == SumCounts(index)
  {
    assert (index + [PageCount(no, 0)])[..|index|] == index;
  }

  lemma NoSteps(rows: Rows)
    ensures Replayed(rows, []) == rows && AllSensible(rows, []) && AcceptedSteps([]) == 0
  {
  }

  /** The allocator's pages are new to the table, of its shape, and blank. */
  ghost predicate Allocator(spareFor: seq<int> -> Option<SparePage>, n: nat)
  {
    forall dataPages :: spareFor(dataPages).Some? ==> NewBlank(spareFor(dataPages).value, dataPages, n)
  }

  ghost predicate NewBlank(spare: SparePage, dataPages: seq<int>, n: nat)
  {
    && spare.no !in dataPages && 0 <= spare.no <= 0x7fff_ffff
    && |spare.page.occupied| == n == |spare.page.records| && Blank(spare.page)
  }

  lemma GrownTrue(index: seq<PageCount>, dataPages: seq<int>, atOpen: map<int, nat>, no: int, page: DataPage)
    requires Listed(index, dataPages) && CountsTrue(index, atOpen) && no !in dataPages
    requires |page.occupied| == |page.records| && Blank(page)
    ensures CountsTrue(index + [PageCount(no, 0)], atOpen[no := Ones(page.occupied)])
  {
    hide Ones;
    FoundNothing(no, page);
  }

  /** Each leaf has its own page, keys of its index's size, and an order. */
  ghost predicate LeavesFit(indexes: seq<Index>, leaves: seq<IndexLeaf>)
    requires |indexes| == |leaves|
  {
    && (forall k :: 0 <= k < |leaves| ==> Preorder(leaves[k].cmp))
    && (forall k, rec :: 0 <= k < |leaves| ==> |indexes[k].keyOf(rec)| == leaves[k].keySize)
    && (forall i, j :: 0 <= i < j < |leaves| ==> leaves[i].payload != leaves[j].payload)
  }

  class TableWriter {
    const recordsPerPage: nat
    const recordSize: nat
    const pageRoom: nat
    const indexes: seq<Index>
    const leaves: seq<IndexLeaf>
    ghost const payloads: set<object>
    const admits: Record -> bool
    const keepsBlobs: (Record, Record) -> bool
    var dataPages: seq<int>
    var pages: Pages
    var pageIndex: seq<PageCount>
    var recordCount: int
    var changes: nat
    var delta: map<int, int>
    var touched: nat
    var dirty: bool
    var closed: bool
    ghost var rows: Rows
    ghost var born: seq<Births>
    ghost var clock: nat
    ghost var atOpen: map<int, nat>

    ghost predicate IndexesOk()
    {
      && |indexes| == |leaves| && this !in payloads
      && (forall k :: 0 <= k < |leaves| ==> leaves[k].payload in payloads)
      && LeavesFit(indexes, leaves)
    }

    ghost predicate LeavesValid()
      reads payloads
    {
      IndexesOk() && forall k :: 0 <= k < |leaves| ==> leaves[k].Valid()
    }

    /** What the leaves hold. */
    ghost function Views(): (vs: seq<seq<Entry>>)
      reads payloads
      requires LeavesValid()
      ensures |vs| == |leaves| && forall k :: 0 <= k < |leaves| ==> vs[k] == leaves[k].Contents()
    {
      seq(|leaves|, k requires 0 <= k < |leaves| reads payloads requires leaves[k].Valid() => leaves[k].Contents())
    }

    ghost predicate AllKept(views: seq<seq<Entry>>, rows: Rows, born: seq<Births>, clock: nat)
    {
      && |born| == |views| == |leaves| == |indexes|
      && forall k :: 0 <= k < |leaves| ==>
           Kept(views[k], rows, born[k], clock, indexes[k].unique, leaves[k].cmp, indexes[k].keyOf)
    }

    /** The leaves with a record's entries added, taken out, or moved to the record's new keys. */
    ghost function ViewsWith(views: seq<seq<Entry>>, id: RecordID, rec: Record): (r: seq<seq<Entry>>)
      requires |views| == |leaves| == |indexes| && id.slot >= 0
      ensures |r| == |views|
      ensures forall k :: 0 <= k < |views| ==>
        r[k] == Inserted(views[k], EntryFor(indexes[k].keyOf(rec), id), leaves[k].cmp)
    {
      seq(|views|, k requires 0 <= k < |views| =>
        Inserted(views[k], EntryFor(indexes[k].keyOf(rec), id), leaves[k].cmp))
    }

    ghost predicate InAll(views: seq<seq<Entry>>, id: RecordID)
    {
      forall k :: 0 <= k < |views| ==> At(views[k], id) < |views[k]|
    }

    ghost function ViewsWithout(views: seq<seq<Entry>>, id: RecordID): (r: seq<seq<Entry>>)
      requires InAll(views, id)
      ensures |r| == |views|
      ensures forall k :: 0 <= k < |views| ==>
        At(views[k], id) < |views[k]| && r[k] == Without(views[k], At(views[k], id))
    {
      seq(|views|, k requires 0 <= k < |views| => Without(views[k], At(views[k], id)))
    }

    ghost function ViewsReplaced(views: seq<seq<Entry>>, id: RecordID, before: Record,
        rec: Record): (r: seq<seq<Entry>>)
      requires |views| == |leaves| == |indexes| && id.slot >= 0 && InAll(views, id)
      ensures |r| == |views|
      ensures forall k :: 0 <= k < |views| ==>
        At(views[k], id) < |views[k]| && r[k] == Replaced(views[k], indexes[k], leaves[k].cmp, id, before, rec)
    {
      seq(|views|, k requires 0 <= k < |views| => Replaced(views[k], indexes[k], leaves[k].cmp, id, before, rec))
    }

    /** Every leaf has room for one more entry. */
    ghost predicate Roomy()
      reads payloads
      requires LeavesValid()
    {
      forall k :: 0 <= k < |leaves| ==> HasRoom(leaves[k].payload[..], leaves[k].keySize)
    }

    /** Refuses an insert some leaf has no room for. */
    method IndexRoom() returns (r: Outcome)
      requires LeavesValid()
      ensures r == if Roomy() then Accepted else LeafFull
    {
      for i := 0 to |leaves|
        invariant forall k :: 0 <= k < i ==> HasRoom(leaves[k].payload[..], leaves[k].keySize)
      {
        var room := leaves[i].Room();
        if !room { return LeafFull; }
      }
      r := Accepted;
    }

    /** The first index to object decides. */
    ghost function KeyVerdict(views: seq<seq<Entry>>, rec: Record, before: Option<Record>, from: nat): Outcome
      requires |views| == |leaves| == |indexes| && from <= |leaves|
      decreases |leaves| - from
    {
      if from == |leaves| then Accepted
      else
        var c := KeyCheck(indexes[from], views[from], leaves[from].cmp, rec, before);
        if c != Accepted then c else KeyVerdict(views, rec, before, from + 1)
    }

    /** Refuses a write that a unique or primary index would reject. */
    method CheckKeyIndexes(rec: Record, before: Option<Record>) returns (r: Outcome)
      requires LeavesValid()
      ensures r == KeyVerdict(Views(), rec, before, 0)
    {
      hide KeyCheck, Has, Preorder, IndexLeaf.Valid, IndexLeaf.Contents;
      ghost var views := Views();
      for i := 0 to |leaves|
        invariant Views() == views && KeyVerdict(views, rec, before, 0) == KeyVerdict(views, rec, before, i)
      {
        var ix := indexes[i];
        CheckIs(ix, views[i], leaves[i].cmp, rec, before);
        if !ix.unique { continue; }
        var key := ix.keyOf(rec);
        if before.Some? && leaves[i].cmp(ix.keyOf(before.value), key) == 0 { continue; }
        if ix.primary && ix.hasNull(key) { return NullKey; }
        assert leaves[i].Contents() == views[i];
        var held := leaves[i].HasKey(key);
        assert Views() == views;
        if held { return DuplicateKey; }
      }
      r := Accepted;
    }

    /** Adds the record to every leaf. */
    method IndexInsert(id: RecordID, rec: Record) returns (r: Outcome)
      requires LeavesValid() && Roomy() && 0 <= id.pageNo <= 0x7fff_ffff && 0 <= id.slot < 65536
      modifies payloads
      ensures LeavesValid() && r == Accepted && Views() == ViewsWith(old(Views()), id, rec)
    {
      hide IndexLeaf.Valid, IndexLeaf.Contents, Inserted, HasRoom, LeafOk, Entries, Preorder;
      ghost var views := Views();
      for i := 0 to |leaves|
        invariant LeavesValid()
        invariant forall k :: 0 <= k < i ==> leaves[k].Contents() == ViewsWith(views, id, rec)[k]
        invariant forall k :: i <= k < |leaves| ==>
          leaves[k].Contents() == views[k] && HasRoom(leaves[k].payload[..], leaves[k].keySize)
      {
        var res := leaves[i].Insert(indexes[i].keyOf(rec), id.pageNo, id.slot);
        if res != Done { return Mismatch; }
      }
      r := Accepted;
    }

    /** Drops the record from every leaf. */
    method IndexRemove(id: RecordID) returns (r: Outcome)
      requires LeavesValid() && InAll(Views(), id)
      modifies payloads
      ensures LeavesValid() && r == Accepted && Views() == ViewsWithout(old(Views()), id)
    {
      hide IndexLeaf.Valid, IndexLeaf.Contents, Without, HasRoom, LeafOk, Entries, FirstAt, Preorder, RemovedBytes;
      ghost var views := Views();
      for i := 0 to |leaves|
        invariant LeavesValid()
        invariant forall k :: 0 <= k < i ==> leaves[k].Contents() == ViewsWithout(views, id)[k]
        invariant forall k :: i <= k < |leaves| ==> leaves[k].Contents() == views[k]
      {
        var res := leaves[i].Remove(id.pageNo, id.slot);
        if res != Done { return Mismatch; }
      }
      r := Accepted;
    }

    /** Moves the record's entry in every leaf whose key changed. */
    method IndexReplace(id: RecordID, before: Record, rec: Record) returns (r: Outcome)
      requires LeavesValid() && 0 <= id.pageNo <= 0x7fff_ffff && 0 <= id.slot < 65536
      requires InAll(Views(), id)
      modifies payloads
      ensures LeavesValid() && r == Accepted && Views() == ViewsReplaced(old(Views()), id, before, rec)
    {
      hide IndexLeaf.Valid, IndexLeaf.Contents, Inserted, Without, At, Preorder, Replaced, EntryFor;
      ghost var views := Views();
      for i := 0 to |leaves|
        invariant LeavesValid()
        invariant forall k :: 0 <= k < i ==> leaves[k].Contents() == ViewsReplaced(views, id, before, rec)[k]
        invariant forall k :: i <= k < |leaves| ==> leaves[k].Contents() == views[k]
      {
        var after := indexes[i].keyOf(rec);
        ReplacedIs(leaves[i].Contents(), indexes[i], leaves[i].cmp, id, before, rec);
        if indexes[i].keyOf(before) == after { continue; }
        var res := MoveEntry(leaves[i], id, after);
        if res != Done { return Mismatch; }
      }
      r := Accepted;
    }

    // -- the leaves and the records together --------------------------------------------------------------

    lemma {:induction false} Accepts(views: seq<seq<Entry>>, rec: Record, before: Option<Record>, from: nat, k: nat)
      requires |views| == |leaves| == |indexes| && from <= k < |leaves|
      requires KeyVerdict(views, rec, before, from) == Accepted
      ensures KeyCheck(indexes[k], views[k], leaves[k].cmp, rec, before) == Accepted
      decreases k - from
    {
      hide KeyCheck;
      if from < k { Accepts(views, rec, before, from + 1, k); }
    }

    lemma AllAdded(views: seq<seq<Entry>>, rows: Rows, born: seq<Births>, clock: nat, id: RecordID, rec: Record)
      requires IndexesOk() && AllKept(views, rows, born, clock) && id !in rows && id.slot >= 0
      requires KeyVerdict(views, rec, None, 0) == Accepted
      ensures AllKept(ViewsWith(views, id, rec), rows[id := rec], BornWith(born, id, clock), clock + 1)
    {
      hide Kept, Inserted, Preorder, KeyVerdict, EntryFor, Has;
      forall k | 0 <= k < |views|
        ensures Kept(ViewsWith(views, id, rec)[k], rows[id := rec], BornWith(born, id, clock)[k], clock + 1,
                     indexes[k].unique, leaves[k].cmp, indexes[k].keyOf)
      {
        Accepts(views, rec, None, 0, k);
        RowAdded(views[k], rows, born[k], clock, indexes[k].unique, leaves[k].cmp, indexes[k].keyOf, id, rec);
      }
    }

    lemma AllDropped(views: seq<seq<Entry>>, rows: Rows, born: seq<Births>, clock: nat, id: RecordID)
      requires AllKept(views, rows, born, clock) && id in rows
      ensures InAll(views, id) && AllKept(ViewsWithout(views, id), rows - {id}, born, clock)
    {
      hide Kept, Without, At;
      AllPresent(views, rows, born, clock, id);
      forall k | 0 <= k < |views|
        ensures Kept(ViewsWithout(views, id)[k], rows - {id}, born[k], clock, indexes[k].unique, leaves[k].cmp,
            indexes[k].keyOf)
      {
        RowDropped(views[k], rows, born[k], clock, indexes[k].unique, leaves[k].cmp, indexes[k].keyOf, id);
      }
    }

    lemma AllPresent(views: seq<seq<Entry>>, rows: Rows, born: seq<Births>, clock: nat, id: RecordID)
      requires AllKept(views, rows, born, clock) && id in rows
      ensures InAll(views, id)
    {
      hide Kept, At;
      forall k | 0 <= k < |views|
        ensures At(views[k], id) < |views[k]|
      {
        RowDropped(views[k], rows, born[k], clock, indexes[k].unique, leaves[k].cmp, indexes[k].keyOf, id);
      }
    }

    ghost function BornWith(born: seq<Births>, id: RecordID, clock: nat): (r: seq<Births>)
      ensures |r| == |born| && forall k :: 0 <= k < |born| ==> r[k] == born[k][id := clock]
    {
      seq(|born|, k requires 0 <= k < |born| => born[k][id := clock])
    }

    /** When the entries of a changed record were put where they are. */
    ghost function BornAgain(born: seq<Births>, id: RecordID, before: Record, rec: Record, clock: nat): (r: seq<Births>)
      requires |born| == |indexes|
      ensures |r| == |born|
    {
      seq(|born|, k requires 0 <= k < |born| =>
        if indexes[k].keyOf(before) == indexes[k].keyOf(rec) then born[k] else born[k][id := clock])
    }

    lemma AllReplaced(views: seq<seq<Entry>>, rows: Rows, born: seq<Births>, clock: nat,
        id: RecordID, rec: Record)
      requires IndexesOk() && AllKept(views, rows, born, clock) && id in rows && id.slot >= 0
      requires KeyVerdict(views, rec, Some(rows[id]), 0) == Accepted
      ensures InAll(views, id)
      ensures AllKept(ViewsReplaced(views, id, rows[id], rec), rows[id := rec],
          BornAgain(born, id, rows[id], rec, clock), clock + 1)
    {
      hide Kept, Inserted, Without, Preorder, KeyVerdict, EntryFor, At, Has;
      AllPresent(views, rows, born, clock, id);
      forall k | 0 <= k < |views|
        ensures Kept(ViewsReplaced(views, id, rows[id], rec)[k], rows[id := rec],
            BornAgain(born, id, rows[id], rec, clock)[k], clock + 1,
                     indexes[k].unique, leaves[k].cmp, indexes[k].keyOf)
      {
        Accepts(views, rec, Some(rows[id]), 0, k);
        if indexes[k].keyOf(rows[id]) == indexes[k].keyOf(rec) {
          SameKey(views[k], rows, born[k], clock, indexes[k].unique, leaves[k].cmp, indexes[k].keyOf, id, rec);
          LaterClock(views[k], rows[id := rec], born[k], clock, indexes[k].unique, leaves[k].cmp, indexes[k].keyOf);
        } else {
          RowMoved(views[k], rows, born[k], clock, indexes[k].unique, leaves[k].cmp, indexes[k].keyOf, id, rec);
        }
      }
    }

    // -- the records --------------------------------------------------------------------------------------

    ghost predicate RecordsOk()
      reads this`dataPages, this`pages, this`pageIndex, this`rows, this`delta, this`atOpen, this`closed
      reads this`dirty, this`touched, this`changes
    {
      && Shaped(dataPages, pages, recordsPerPage) && RowsAre(dataPages, pages, recordsPerPage, rows)
      && AllCounted(dataPages, pages, rows) && Listed(pageIndex, dataPages) && recordsPerPage < 65536
      && (forall no :: no in delta ==> no in dataPages)
      && (!closed ==> Noted(dataPages, pages, recordsPerPage, delta, atOpen)) && changes < 0x1_0000_0000
      && (!dirty ==> touched == 0 && delta == map[])
    }

    ghost predicate Valid()
      reads this, payloads
    {
      LeavesValid() && RecordsOk() && AllKept(Views(), rows, born, clock)
    }

    /** The record's slot, if there is one and, where asked, a record in it. */
    function SlotCheck(id: RecordID, mustExist: bool): Outcome
      reads this
    {
      if closed then Closed
      else if id.slot < 0 || id.slot >= recordsPerPage || id.pageNo !in dataPages then NoRecord
      else if mustExist && !IsRecord(dataPages, pages, id) then NoRecord
      else Accepted
    }

    /** The first free slot, pages in their order and slots from the bottom. */
    method FindFree() returns (found: bool, id: RecordID, ghost at: nat)
      requires Shaped(dataPages, pages, recordsPerPage)
      ensures found <==> !AllFull(dataPages, pages)
      ensures if found then FirstFree(dataPages, pages, at, id) else at == |dataPages|
    {
      for i := 0 to |dataPages|
        invariant forall k :: 0 <= k < i ==> Full(pages, dataPages[k])
      {
        var no := dataPages[i];
        for slot := 0 to recordsPerPage
          invariant forall s :: 0 <= s < slot ==> pages[no].occupied[s]
        {
          if !pages[no].occupied[slot] { return true, RecordID(no, slot), i; }
        }
      }
      found, id, at := false, RecordID(0, 0), |dataPages|;
    }

    /** What a page handed over by the allocator satisfies: it is none of the table's. */
    ghost predicate SpareOk(spare: Option<SparePage>)
      reads this`dataPages
    {
      spare.Some? ==>
        && spare.value.no !in dataPages && 0 <= spare.value.no <= 0x7fff_ffff
        && |spare.value.page.occupied| == recordsPerPage == |spare.value.page.records|
    }

    function GrowVerdict(spare: Option<SparePage>, listed: nat): Outcome
    {
      if recordsPerPage == 0 then TableFull
      else if spare == None then NoSpace
      else if listed >= pageRoom then TableFull else Accepted
    }

    /** Adds the allocator's page as it is found, as long as the record-page index has room to list it. */
    method GrowTable(spare: Option<SparePage>) returns (r: Outcome, no: int)
      requires RecordsOk() && SpareOk(spare)
      modifies this`dataPages, this`pages, this`pageIndex, this`dirty, this`atOpen, this`rows
      ensures RecordsOk() && r == GrowVerdict(spare, |old(pageIndex)|)
      ensures r == Accepted ==>
        && spare.Some? && spare.value.no == no && |spare.value.page.occupied| == |spare.value.page.records|
        && dataPages == old(dataPages) + [no] && pages == old(pages)[no := spare.value.page]
        && pageIndex == old(pageIndex) + [PageCount(no, 0)] && rows == old(rows) + FoundOn(no, spare.value.page)
        && atOpen == old(atOpen)[no := Ones(spare.value.page.occupied)]
      ensures r != Accepted ==>
        && dataPages == old(dataPages) && pages == old(pages) && pageIndex == old(pageIndex) && rows == old(rows)
        && atOpen == old(atOpen)
    {
      no := 0;
      if recordsPerPage <= 0 { return TableFull, 0; }
      if spare == None { return NoSpace, 0; }
      hide Distinct, RowsAre, AllCounted, Noted, Listed, Ones;
      no := spare.value.no;
      dirty := true;
      if |pageIndex| >= pageRoom { return TableFull, 0; }
      GrowRecords(no, spare.value.page);
      r := Accepted;
    }

    /** The page joins the table with whatever its bitmap says. */
    method GrowRecords(no: int, page: DataPage)
      requires RecordsOk() && dirty && no !in dataPages && 0 <= no <= 0x7fff_ffff
      requires |page.occupied| == recordsPerPage == |page.records|
      modifies this`dataPages, this`pages, this`pageIndex, this`atOpen, this`rows
      ensures RecordsOk()
      ensures dataPages == old(dataPages) + [no] && pages == old(pages)[no := page]
      ensures pageIndex == old(pageIndex) + [PageCount(no, 0)] && rows == old(rows) + FoundOn(no, page)
      ensures atOpen == old(atOpen)[no := Ones(page.occupied)]
    {
      hide Distinct, RowsAre, AllCounted, Noted, Listed, Ones, Shaped;
      GrownRows(dataPages, pages, recordsPerPage, rows, no, page);
      GrownCounted(dataPages, pages, recordsPerPage, rows, no, page);
      GrownListed(pageIndex, dataPages, no);
      if !closed { GrownNoted(dataPages, pages, recordsPerPage, delta, atOpen, no, page); }
      pageIndex := pageIndex + [PageCount(no, 0)];
      pages := pages[no := page];
      dataPages := dataPages + [no];
      atOpen := atOpen[no := Ones(page.occupied)];
      rows := rows + FoundOn(no, page);
    }

    /** Where a new record goes: the first free slot, or slot 0 of a page added. */
    ghost predicate Chosen(dataPages: seq<int>, pages: Pages, spare: Option<SparePage>, at: nat, id: RecordID)
    {
      if AllFull(dataPages, pages) then at == |dataPages| && spare.Some? && id == RecordID(spare.value.no, 0)
      else FirstFree(dataPages, pages, at, id)
    }

    method FreeSlot(spare: Option<SparePage>) returns (r: Outcome, id: RecordID, ghost at: nat)
      requires RecordsOk() && SpareOk(spare)
      modifies this`dataPages, this`pages, this`pageIndex, this`dirty, this`atOpen, this`rows
      ensures RecordsOk()
      ensures r == if AllFull(old(dataPages), old(pages)) then GrowVerdict(spare, |old(pageIndex)|) else Accepted
      ensures r == Accepted ==>
        && Chosen(old(dataPages), old(pages), spare, at, id)
        && id.pageNo in dataPages && 0 <= id.pageNo <= 0x7fff_ffff && 0 <= id.slot < recordsPerPage && id !in old(rows)
      ensures if r == Accepted && AllFull(old(dataPages), old(pages)) then
          && spare.Some? && |spare.value.page.occupied| == recordsPerPage == |spare.value.page.records|
          && id.pageNo == spare.value.no && (id in rows <==> spare.value.page.occupied[0])
          && dataPages == old(dataPages) + [id.pageNo] && pages == old(pages)[id.pageNo := spare.value.page]
          && pageIndex == old(pageIndex) + [PageCount(id.pageNo, 0)]
          && rows == old(rows) + FoundOn(id.pageNo, spare.value.page)
          && atOpen == old(atOpen)[id.pageNo := Ones(spare.value.page.occupied)]
        else
          && dataPages == old(dataPages) && pages == old(pages) && pageIndex == old(pageIndex) && rows == old(rows)
          && atOpen == old(atOpen)
    {
      hide AllCounted, Noted, Listed, FirstFree, AllFull, Distinct, Full, Ones;
      var found;
      found, id, at := FindFree();
      if found {
        FreeOrFull(dataPages, pages, at, id);
        FreeInside(dataPages, pages, recordsPerPage, at, id);
        return Accepted, id, at;
      }
      var no;
      r, no := GrowTable(spare);
      id := RecordID(no, 0);
    }

    /** Puts a new record into a free slot. */
    method PutRecord(id: RecordID, rec: Record)
      requires RecordsOk() && !closed && id.pageNo in dataPages && 0 <= id.slot < recordsPerPage && id !in rows
      modifies this`pages, this`delta, this`touched, this`dirty, this`rows
      ensures RecordsOk() && rows == old(rows)[id := rec] && touched == old(touched) + 1 && dirty
      ensures id.pageNo in old(pages)
      ensures |old(pages)[id.pageNo].occupied| == recordsPerPage == |old(pages)[id.pageNo].records|
      ensures delta == old(delta)[id.pageNo := Change(old(delta), id.pageNo) + 1]
      ensures pages == Stored(old(pages), id, rec)
    {
      hide Distinct, Listed, Shaped, RowsAre, Noted, Stored, AllCounted;
      SlotShape(dataPages, pages, recordsPerPage, id.pageNo);
      StoredRows(dataPages, pages, recordsPerPage, rows, id, rec);
      StoredNoted(dataPages, pages, recordsPerPage, delta, atOpen, id, rec);
      StoredCounted(dataPages, pages, recordsPerPage, rows, id, rec);
      OccupiedIsRow(dataPages, pages, recordsPerPage, rows, id);
      pages := Stored(pages, id, rec);
      dirty := true;
      delta := delta[id.pageNo := Change(delta, id.pageNo) + 1];
      touched := touched + 1;
      rows := rows[id := rec];
    }

    /** Overwrites a record. */
    method StoreRecord(id: RecordID, rec: Record)
      requires RecordsOk() && !closed && id.pageNo in dataPages && 0 <= id.slot < recordsPerPage && id in rows
      modifies this`pages, this`touched, this`dirty, this`rows
      ensures RecordsOk() && rows == old(rows)[id := rec] && touched == old(touched) + 1 && dirty
      ensures id.pageNo in old(pages)
      ensures |old(pages)[id.pageNo].occupied| == recordsPerPage == |old(pages)[id.pageNo].records|
      ensures pages == Stored(old(pages), id, rec)
    {
      hide Distinct, Listed, Shaped, RowsAre, Noted, Stored, AllCounted;
      SlotShape(dataPages, pages, recordsPerPage, id.pageNo);
      StoredRows(dataPages, pages, recordsPerPage, rows, id, rec);
      StoredNoted(dataPages, pages, recordsPerPage, delta, atOpen, id, rec);
      StoredCounted(dataPages, pages, recordsPerPage, rows, id, rec);
      OccupiedIsRow(dataPages, pages, recordsPerPage, rows, id);
      pages := Stored(pages, id, rec);
      dirty := true;
      touched := touched + 1;
      rows := rows[id := rec];
    }

    /** Clears a record's occupancy bit; its bytes stay. */
    method ClearRecord(id: RecordID)
      requires RecordsOk() && !closed && id.pageNo in dataPages && 0 <= id.slot < recordsPerPage && id in rows
      modifies this`pages, this`delta, this`touched, this`dirty, this`rows
      ensures RecordsOk() && rows == old(rows) - {id} && touched == old(touched) + 1 && dirty
      ensures id.pageNo in old(pages) && |old(pages)[id.pageNo].occupied| == recordsPerPage
      ensures delta == old(delta)[id.pageNo := Change(old(delta), id.pageNo) - 1]
      ensures pages == Cleared(old(pages), id)
    {
      hide Distinct, Listed, Shaped, RowsAre, Noted, Cleared, AllCounted;
      SlotShape(dataPages, pages, recordsPerPage, id.pageNo);
      OccupiedIsRow(dataPages, pages, recordsPerPage, rows, id);
      ClearedRows(dataPages, pages, recordsPerPage, rows, id);
      ClearedNoted(dataPages, pages, recordsPerPage, delta, atOpen, id);
      ClearedCounted(dataPages, pages, recordsPerPage, rows, id);
      pages := Cleared(pages, id);
      dirty := true;
      delta := delta[id.pageNo := Change(delta, id.pageNo) - 1];
      touched := touched + 1;
      rows := rows - {id};
    }

    // -- what the records alone say of an operation --------------------------------------------------------

    /** Every leaf takes one entry more than n. */
    ghost predicate RoomFor(n: nat)
    {
      forall k :: 0 <= k < |leaves| ==> 18 + (n + 1) * (leaves[k].keySize + 6) <= leaves[k].payload.Length
    }

    /** The index does not object: no other record's key ties with this one's in a unique index, and in a primary one
        only a record that had such a key has one that holds a null. */
    ghost predicate KeyFree(k: nat, rows: Rows, rec: Record, except: Option<RecordID>)
    {
      k < |leaves| == |indexes| && indexes[k].unique ==>
        var key := indexes[k].keyOf(rec);
        && !Taken(rows, leaves[k].cmp, indexes[k].keyOf, key, except)
        && (indexes[k].primary && indexes[k].hasNull(key) ==>
              && except.Some? && except.value in rows
              && leaves[k].cmp(indexes[k].keyOf(rows[except.value]), key) == 0)
    }

    ghost predicate KeysFree(rows: Rows, rec: Record, except: Option<RecordID>)
    {
      forall k: nat :: k < |leaves| ==> KeyFree(k, rows, rec, except)
    }

    /** The record meets the constraints, and every index takes it. */
    ghost predicate Fits(rows: Rows, rec: Record)
    {
      admits(rec) && RoomFor(|rows|) && KeysFree(rows, rec, None)
    }

    /** The allocator's page joins the table. */
    ghost predicate CanGrow(dataPages: seq<int>, spare: Option<SparePage>)
    {
      recordsPerPage > 0 && spare.Some? && |dataPages| < pageRoom
    }

    /** The record can be inserted: it fits, and there is a slot or there will be one. */
    ghost predicate Insertable(rows: Rows, dataPages: seq<int>, rec: Record, spare: Option<SparePage>)
    {
      && Fits(rows, rec)
      && (AllTaken(rows, dataPages, recordsPerPage) ==>
            CanGrow(dataPages, spare) && |spare.value.page.occupied| > 0 && !spare.value.page.occupied[0])
    }

    /** A record can become another one: there is such a record, the new one is of the right size, keeps what it must
        and meets the constraints, and every index takes it. */
    ghost predicate Storable(rows: Rows, id: RecordID, rec: Record)
    {
      && id in rows && |rec| == recordSize && keepsBlobs(rows[id], rec) && admits(rec)
      && KeysFree(rows, rec, Some(id))
    }

    /** Where a new record goes. */
    ghost predicate Place(rows: Rows, dataPages: seq<int>, spare: Option<SparePage>, at: nat, id: RecordID)
    {
      if AllTaken(rows, dataPages, recordsPerPage) then
        at == |dataPages| && spare.Some? && id == RecordID(spare.value.no, 0)
      else FirstPlace(rows, dataPages, recordsPerPage, at, id)
    }

    lemma KeyByRow(es: seq<Entry>, rows: Rows, born: Births, clock: nat, k: nat, rec: Record, except: Option<RecordID>)
      requires k < |leaves| == |indexes| && Preorder(leaves[k].cmp) && (except.Some? ==> except.value in rows)
      requires Kept(es, rows, born, clock, indexes[k].unique, leaves[k].cmp, indexes[k].keyOf)
      ensures var before := if except.Some? then Some(rows[except.value]) else None;
        KeyCheck(indexes[k], es, leaves[k].cmp, rec, before) == Accepted <==> KeyFree(k, rows, rec, except)
    {
      hide Agrees, TiesByBirth, Has, Taken, Preorder;
      var ix, cmp := indexes[k], leaves[k].cmp;
      if ix.unique {
        if except.Some? {
          OthersTaken(es, rows, cmp, ix.keyOf, ix.keyOf(rec), except.value);
        } else {
          HasIsTaken(es, rows, ix.unique, cmp, ix.keyOf, ix.keyOf(rec));
        }
      }
    }

    /** No index objects exactly when each of them has none. */
    lemma {:induction false} NoneObjects(views: seq<seq<Entry>>, rec: Record, before: Option<Record>, from: nat)
      requires |views| == |leaves| == |indexes| && from <= |leaves|
      ensures KeyVerdict(views, rec, before, from) == Accepted <==>
        forall k :: from <= k < |leaves| ==> KeyCheck(indexes[k], views[k], leaves[k].cmp, rec, before) == Accepted
      decreases |leaves| - from
    {
      hide KeyCheck;
      if from < |leaves| { NoneObjects(views, rec, before, from + 1); }
    }

    lemma KeysByRows(views: seq<seq<Entry>>, rows: Rows, born: seq<Births>, clock: nat, rec: Record,
        except: Option<RecordID>)
      requires IndexesOk() && AllKept(views, rows, born, clock) && (except.Some? ==> except.value in rows)
      ensures |views| == |leaves| == |indexes|
      ensures KeyVerdict(views, rec, if except.Some? then Some(rows[except.value]) else None, 0) == Accepted <==>
        KeysFree(rows, rec, except)
    {
      hide KeyCheck, KeyFree, Kept, Preorder, KeyVerdict;
      var before := if except.Some? then Some(rows[except.value]) else None;
      NoneObjects(views, rec, before, 0);
      forall k: nat | k < |leaves|
        ensures KeyCheck(indexes[k], views[k], leaves[k].cmp, rec, before) == Accepted <==>
          KeyFree(k, rows, rec, except)
      {
        KeyByRow(views[k], rows, born[k], clock, k, rec, except);
      }
    }

    lemma RoomByRows()
      requires LeavesValid() && AllKept(Views(), rows, born, clock)
      ensures Roomy() <==> RoomFor(|rows|)
    {
      hide Kept, Preorder, LeafOk, Entries;
      var views := Views();
      forall k | 0 <= k < |leaves|
        ensures HasRoom(leaves[k].payload[..], leaves[k].keySize)
          <==> 18 + (|rows| + 1) * (leaves[k].keySize + 6) <= leaves[k].payload.Length
      {
        assert Kept(views[k], rows, born[k], clock, indexes[k].unique, leaves[k].cmp, indexes[k].keyOf);
        KeptSize(views[k], rows, born[k], clock, indexes[k].unique, leaves[k].cmp, indexes[k].keyOf);
        RoomCounted(leaves[k]);
      }
    }

    // -- the operations -----------------------------------------------------------------------------------

    /** The checks an insert makes before it looks for a slot. */
    ghost function InsertCheck(rec: Record): Outcome
      reads payloads
      requires LeavesValid()
    {
      if !admits(rec) then Refused else if !Roomy() then LeafFull else KeyVerdict(Views(), rec, None, 0)
    }

    /** The insert adds a page to the table. */
    ghost predicate Grows(rec: Record, spare: Option<SparePage>)
      reads this`dataPages, this`pages, this`pageIndex, payloads
      requires LeavesValid()
    {
      InsertCheck(rec) == Accepted && AllFull(dataPages, pages) && GrowVerdict(spare, |pageIndex|) == Accepted
    }

    /** Whether an insert is accepted, or what it is refused for. */
    ghost function InsertVerdict(rec: Record, spare: Option<SparePage>): Outcome
      reads this, payloads
      requires LeavesValid() && SpareOk(spare)
    {
      if InsertCheck(rec) != Accepted then InsertCheck(rec)
      else if AllFull(dataPages, pages) && GrowVerdict(spare, |pageIndex|) != Accepted then
        GrowVerdict(spare, |pageIndex|)
      else if closed then Closed
      else if AllFull(dataPages, pages) && spare.value.page.occupied[0] then SlotOccupied
      else Accepted
    }

    /** The records the added page brings along. */
    ghost function Brought(grows: bool, spare: Option<SparePage>): Rows
    {
      if grows && spare.Some? && |spare.value.page.occupied| == |spare.value.page.records|
      then FoundOn(spare.value.no, spare.value.page) else map[]
    }

    lemma {:induction false} KeyRefusals(views: seq<seq<Entry>>, rec: Record, before: Option<Record>, from: nat)
      requires |views| == |leaves| == |indexes| && from <= |leaves|
      ensures KeyVerdict(views, rec, before, from) in {Accepted, NullKey, DuplicateKey}
      decreases |leaves| - from
    {
      hide Has;
      if from < |leaves| { KeyRefusals(views, rec, before, from + 1); }
    }

    /** The verdict on an insert, and whether it adds a page, by the records and the data pages alone. */
    lemma InsertByRows(rec: Record, spare: Option<SparePage>)
      requires Valid() && SpareOk(spare)
      ensures InsertVerdict(rec, spare) == Accepted <==> !closed && Insertable(rows, dataPages, rec, spare)
      ensures InsertVerdict(rec, spare) == Refused <==> !admits(rec)
      ensures InsertVerdict(rec, spare) == LeafFull <==> admits(rec) && !RoomFor(|rows|)
      ensures InsertVerdict(rec, spare) in {NullKey, DuplicateKey} <==>
        admits(rec) && RoomFor(|rows|) && !KeysFree(rows, rec, None)
      ensures Grows(rec, spare) <==>
        Fits(rows, rec) && AllTaken(rows, dataPages, recordsPerPage) && CanGrow(dataPages, spare)
    {
      hide Roomy, RoomFor, KeyVerdict, KeysFree, AllFull, AllTaken, AllKept, LeavesValid, AllCounted, Noted;
      LeafParts();
      RoomByRows();
      KeysByRows(Views(), rows, born, clock, rec, None);
      KeyRefusals(Views(), rec, None, 0);
      AllFullByRows(dataPages, pages, recordsPerPage, rows);
    }

    /** The place chosen, by the records and the data pages alone. */
    lemma PlaceByRows(spare: Option<SparePage>)
      requires RecordsOk()
      ensures forall at, id :: Chosen(dataPages, pages, spare, at, id) ==> Place(rows, dataPages, spare, at, id)
    {
      hide AllFull, AllTaken, AllCounted, Noted, Shaped, RowsAre, FirstFree, FirstPlace;
      AllFullByRows(dataPages, pages, recordsPerPage, rows);
      forall at, id | Chosen(dataPages, pages, spare, at, id)
        ensures Place(rows, dataPages, spare, at, id)
      {
        if !AllFull(dataPages, pages) { FirstByRows(dataPages, pages, recordsPerPage, rows, at, id); }
      }
    }

    method CheckInsert(rec: Record) returns (r: Outcome)
      requires LeavesValid()
      ensures r == InsertCheck(rec)
    {
      hide Roomy, KeyVerdict, LeavesValid;
      if !admits(rec) { return Refused; }
      r := IndexRoom();
      if r != Accepted { return; }
      r := CheckKeyIndexes(rec, None);
    }

    /** Stores a new record in the first free slot and adds it to every index; every check comes first. Records and
        indexes go on agreeing exactly when no page is added or the page added has no bit set in its bitmap: what the
        bitmap says otherwise joins the table's records, and no index knows of it. */
    method Insert(rec: Record, spare: Option<SparePage>) returns (r: Outcome, id: RecordID, ghost at: nat)
      requires Valid() && SpareOk(spare)
      modifies this`dataPages, this`pages, this`pageIndex, this`delta, this`touched, this`dirty, this`rows, this`born,
        this`clock, this`atOpen, payloads
      ensures LeavesValid() && RecordsOk() && r == old(InsertVerdict(rec, spare))
      ensures r == Accepted <==> !closed && Insertable(old(rows), old(dataPages), rec, spare)
      ensures r == Refused <==> !admits(rec)
      ensures r == LeafFull <==> admits(rec) && !RoomFor(|old(rows)|)
      ensures r in {NullKey, DuplicateKey} <==> admits(rec) && RoomFor(|old(rows)|) && !KeysFree(old(rows), rec, None)
      ensures var all := old(rows) + Brought(old(Grows(rec, spare)), spare);
        rows == if r == Accepted then all[id := rec] else all
      ensures r == Accepted ==>
        && id !in old(rows) && Chosen(old(dataPages), old(pages), spare, at, id)
        && Place(old(rows), old(dataPages), spare, at, id)
        && dirty && delta == old(delta)[id.pageNo := Change(old(delta), id.pageNo) + 1]
        && touched == old(touched) + 1 && clock == old(clock) + 1 && born == BornWith(old(born), id, old(clock))
      ensures r != Accepted ==>
        touched == old(touched) && clock == old(clock) && born == old(born) && Views() == old(Views())
      ensures if old(Grows(rec, spare)) && spare.Some? then
          && dataPages == old(dataPages) + [spare.value.no]
          && pageIndex == old(pageIndex) + [PageCount(spare.value.no, 0)]
          && atOpen == old(atOpen)[spare.value.no := Ones(spare.value.page.occupied)]
          && (r == Accepted ==> id.pageNo == spare.value.no)
        else dataPages == old(dataPages) && pageIndex == old(pageIndex) && atOpen == old(atOpen)
      ensures !old(Grows(rec, spare)) ==> Valid()
      ensures old(Grows(rec, spare)) && spare.Some? && leaves != [] ==> (Valid() <==> Blank(spare.value.page))
      ensures old(Grows(rec, spare)) && spare.Some? && Blank(spare.value.page) ==>
        Valid() && Brought(true, spare) == map[]
    {
      hide *;
      ValidParts();
      id, at := RecordID(0, 0), 0;
      ghost var views, kept := Views(), rows;
      ghost var grows, brought := Grows(rec, spare), Brought(Grows(rec, spare), spare);
      InsertByRows(rec, spare);
      PlaceByRows(spare);
      VerdictSteps(rec, spare);
      FoundIsNew(spare, grows);
      PlusNothing(kept);
      r := CheckInsert(rec);
      if r != Accepted { return; }
      r, id, at := FreeSlot(spare);
      if r != Accepted {
        MakeValid();
        return;
      }
      r := FillSlot(id, rec, spare, kept, grows);
    }

    /** Stores the record unless the slot turns out taken. */
    method FillSlot(id: RecordID, rec: Record, spare: Option<SparePage>, ghost kept: Rows,
        ghost grows: bool) returns (r: Outcome)
      requires LeavesValid() && RecordsOk() && AllKept(Views(), kept, born, clock) && recordsPerPage < 65536
      requires Roomy() && |Views()| == |leaves| == |indexes| && KeyVerdict(Views(), rec, None, 0) == Accepted
      requires id.pageNo in dataPages && 0 <= id.pageNo <= 0x7fff_ffff && 0 <= id.slot < recordsPerPage && id !in kept
      requires grows ==> spare.Some? && |spare.value.page.occupied| == |spare.value.page.records|
      requires rows == kept + Brought(grows, spare) && forall p :: p in Brought(grows, spare) ==> p !in kept
      requires this !in payloads
      modifies this`pages, this`delta, this`touched, this`dirty, this`rows, this`born, this`clock, payloads
      ensures LeavesValid() && RecordsOk()
      ensures r == if closed then Closed else if id in old(rows) then SlotOccupied else Accepted
      ensures rows == if r == Accepted then old(rows)[id := rec] else old(rows)
      ensures r == Accepted ==>
        && dirty && delta == old(delta)[id.pageNo := Change(old(delta), id.pageNo) + 1]
        && touched == old(touched) + 1 && clock == old(clock) + 1 && born == BornWith(old(born), id, old(clock))
      ensures r != Accepted ==>
        touched == old(touched) && clock == old(clock) && born == old(born) && Views() == old(Views())
      ensures !grows ==> Valid()
      ensures grows && leaves != [] ==> (Valid() <==> Blank(spare.value.page))
      ensures grows && Blank(spare.value.page) ==> Valid() && Brought(true, spare) == map[]
    {
      hide *;
      r := CheckSlot(id);
      KeptAndBrought(kept, Brought(grows, spare), id, rec);
      ghost var known := kept;
      if r == Accepted {
        AddRecord(id, rec, kept);
        known := kept[id := rec];
      }
      WhatIsKept(grows, spare, known);
    }

    /** An insert that adds a page, then the commit: a page that came with bits set stops one or the other. */
    method GrowAndCommit(rec: Record, spare: Option<SparePage>) returns (r: Outcome, c: Outcome)
      requires Valid() && SpareOk(spare) && !closed && Grows(rec, spare)
      modifies this, payloads
      ensures spare.Some? && |spare.value.page.occupied| == recordsPerPage > 0
      ensures r == if spare.value.page.occupied[0] then SlotOccupied else Accepted
      ensures r == Accepted && !Blank(spare.value.page) ==> c == Mismatch
      ensures touched <= 0x7fff_ffff && |rows| <= 0x7fff_ffff ==>
        old(CountsTrue(pageIndex, atOpen)) && Blank(spare.value.page) ==> c == Accepted
    {
      hide *;
      ghost var index, changed, listed, open := pageIndex, delta, dataPages, atOpen;
      ValidParts();
      DeltaListed();
      VerdictSteps(rec, spare);
      GrowsWhen(rec, spare);
      ListedIs();
      var id;
      ghost var at;
      r, id, at := Insert(rec, spare);
      if r == Accepted { StaleCommit(index, changed, listed, spare.value.no, spare.value.page); }
      if Blank(spare.value.page) && CountsTrue(index, open) {
        GrownTrue(index, listed, open, spare.value.no, spare.value.page);
      }
      c := Commit();
    }

    lemma ListedIs()
      requires RecordsOk()
      ensures Listed(pageIndex, dataPages)
    {
    }

    /** A page that came with bits set and got a record stops the commit: its count is not what it held. */
    lemma StaleCommit(index: seq<PageCount>, changed: map<int, int>, listed: seq<int>, no: int, page: DataPage)
      requires !closed && dirty && |page.occupied| == |page.records| && no !in listed
      requires forall x :: x in changed ==> x in listed
      requires pageIndex == index + [PageCount(no, 0)] && no in atOpen && atOpen[no] == Ones(page.occupied)
      requires delta == changed[no := Change(changed, no) + 1]
      ensures CommitVerdict() == Mismatch || Blank(page)
    {
      hide Ones, SumOver, SumCounts, Blank;
      FoundNothing(no, page);
      if !Blank(page) {
        assert pageIndex[|index|] == PageCount(no, 0);
        assert !CountTrue(pageIndex[|index|], atOpen);
      }
    }

    lemma DeltaListed()
      requires RecordsOk()
      ensures forall no :: no in delta ==> no in dataPages
    {
    }

    /** The slot is free, unless the writer is closed or the page came with the slot's bit set. */
    method CheckSlot(id: RecordID) returns (r: Outcome)
      requires RecordsOk() && id.pageNo in dataPages && 0 <= id.slot < recordsPerPage
      ensures r == if closed then Closed else if id in rows then SlotOccupied else Accepted
    {
      hide RecordsOk, IsRecord;
      RowSlot(id);
      r := SlotCheck(id, false);
      if r == Accepted && IsRecord(dataPages, pages, id) { r := SlotOccupied; }
    }

    /** What each check leaves of the verdict. */
    lemma VerdictSteps(rec: Record, spare: Option<SparePage>)
      requires LeavesValid() && SpareOk(spare)
      ensures InsertCheck(rec) != Accepted ==> InsertVerdict(rec, spare) == InsertCheck(rec) && !Grows(rec, spare)
      ensures InsertCheck(rec) == Accepted ==>
        && Roomy() && KeyVerdict(Views(), rec, None, 0) == Accepted
        && (Grows(rec, spare) <==> AllFull(dataPages, pages) && GrowVerdict(spare, |pageIndex|) == Accepted)
        && (AllFull(dataPages, pages) && !Grows(rec, spare) ==>
          InsertVerdict(rec, spare) == GrowVerdict(spare, |pageIndex|))
        && (!AllFull(dataPages, pages) ==> InsertVerdict(rec, spare) == if closed then Closed else Accepted)
      ensures Grows(rec, spare) ==>
        && spare.Some? && |spare.value.page.occupied| == |spare.value.page.records| > 0
        && InsertVerdict(rec, spare)
           == if closed then Closed else if spare.value.page.occupied[0] then SlotOccupied else Accepted
    {
      hide AllFull, KeyVerdict, Roomy, LeavesValid;
    }

    /** What the added page appears to hold is none of the records. */
    lemma FoundIsNew(spare: Option<SparePage>, grows: bool)
      requires RecordsOk() && SpareOk(spare)
      ensures forall p :: p in Brought(grows, spare) ==> p !in rows
      ensures spare.Some? ==> spare.value.no !in dataPages
      ensures !grows ==> Brought(grows, spare) == map[]
      ensures grows && spare.Some? && |spare.value.page.occupied| == |spare.value.page.records| ==>
        Brought(grows, spare) == FoundOn(spare.value.no, spare.value.page)
    {
      hide AllCounted, Listed, Noted, Distinct, FoundOn;
    }

    lemma PlusNothing(kept: Rows)
      ensures kept + map[] == kept
    {
    }

    lemma KeptAndBrought(kept: Rows, brought: Rows, id: RecordID, rec: Record)
      ensures id !in kept + brought ==> (kept + brought)[id := rec] == kept[id := rec] + brought && id !in brought
    {
    }

    /** The leaves know the records kept; they agree with all of them exactly when the added page brought none. */
    lemma WhatIsKept(grows: bool, spare: Option<SparePage>, kept: Rows)
      requires LeavesValid() && RecordsOk() && AllKept(Views(), kept, born, clock)
      requires grows ==> spare.Some? && |spare.value.page.occupied| == |spare.value.page.records|
      requires rows == kept + Brought(grows, spare) && forall p :: p in Brought(grows, spare) ==> p !in kept
      ensures !grows ==> Valid()
      ensures grows && leaves != [] ==> (Valid() <==> Blank(spare.value.page))
      ensures grows && Blank(spare.value.page) ==> Valid() && Brought(true, spare) == map[]
    {
      hide RecordsOk, FoundOn, Kept, Blank;
      if grows { FoundNothing(spare.value.no, spare.value.page); }
      var brought := Brought(grows, spare);
      if brought == map[] {
        assert rows == kept;
      } else if leaves != [] {
        var p :| p in brought;
        assert p in rows;
        Unindexed(Views()[0], kept, rows, born[0], clock, indexes[0].unique, leaves[0].cmp, indexes[0].keyOf, p);
      }
    }

    /** Stores a record the checks let through and adds it to every index. */
    method AddRecord(id: RecordID, rec: Record, ghost kept: Rows)
      requires LeavesValid() && RecordsOk() && AllKept(Views(), kept, born, clock) && recordsPerPage < 65536
      requires Roomy() && !closed && |Views()| == |leaves| == |indexes| && KeyVerdict(Views(), rec, None, 0) == Accepted
      requires id.pageNo in dataPages && 0 <= id.pageNo <= 0x7fff_ffff && 0 <= id.slot < recordsPerPage
      requires id !in rows && id !in kept
      modifies this`pages, this`delta, this`touched, this`dirty, this`rows, this`born, this`clock, payloads
      ensures LeavesValid() && RecordsOk() && rows == old(rows)[id := rec]
      ensures AllKept(Views(), kept[id := rec], born, clock)
      ensures touched == old(touched) + 1 && clock == old(clock) + 1 && born == BornWith(old(born), id, old(clock))
      ensures dirty && delta == old(delta)[id.pageNo := Change(old(delta), id.pageNo) + 1]
    {
      hide *;
      LeafParts();
      ghost var views := Views();
      PutRecord(id, rec);
      var r := IndexInsert(id, rec);
      AllAdded(views, kept, born, clock, id, rec);
      born := BornWith(born, id, clock);
      clock := clock + 1;
    }

    lemma LeafParts()
      requires LeavesValid()
      ensures IndexesOk() && |Views()| == |leaves| == |indexes| && this !in payloads
    {
    }

    lemma ValidParts()
      requires Valid()
      ensures LeavesValid() && IndexesOk() && RecordsOk() && AllKept(Views(), rows, born, clock)
      ensures |Views()| == |leaves| == |indexes| == |born| && recordsPerPage < 65536 && this !in payloads
    {
      hide Kept;
    }

    lemma MakeValid()
      requires LeavesValid() && RecordsOk() && AllKept(Views(), rows, born, clock)
      ensures Valid()
    {
    }

    lemma RowSlot(id: RecordID)
      requires RecordsOk()
      ensures id in rows <==> IsRecord(dataPages, pages, id)
      ensures id in rows ==>
        && id.pageNo in dataPages && 0 <= id.pageNo <= 0x7fff_ffff && 0 <= id.slot < recordsPerPage
        && id.pageNo in pages && id.slot < |pages[id.pageNo].records| && rows[id] == pages[id.pageNo].records[id.slot]
    {
      hide AllCounted, Listed, Noted, Distinct;
    }

    lemma SlotIsRow(id: RecordID)
      requires RecordsOk()
      ensures SlotCheck(id, true) == if closed then Closed else if id in rows then Accepted else NoRecord
    {
      hide RecordsOk, IsRecord;
      RowSlot(id);
    }

    /** Whether a change to an existing record is accepted, or what it is refused for. */
    ghost function StoreVerdict(id: RecordID, rec: Record): Outcome
      reads this, payloads
      requires LeavesValid()
    {
      if closed then Closed
      else if id !in rows then NoRecord
      else if |rec| != recordSize || !keepsBlobs(rows[id], rec) || !admits(rec) then Refused
      else KeyVerdict(Views(), rec, Some(rows[id]), 0)
    }

    /** Overwrites the record and moves its entry in every index whose key changed; the checks come first. */
    method StoreRecordReindexing(id: RecordID, rec: Record) returns (r: Outcome)
      requires Valid() && !closed && id in rows && id.pageNo in pages && 0 <= id.slot < |pages[id.pageNo].records|
      requires rows[id] == pages[id.pageNo].records[id.slot]
      modifies this`pages, this`touched, this`dirty, this`rows, this`born, this`clock, payloads
      ensures Valid() && r == old(StoreVerdict(id, rec))
      ensures r == Accepted ==>
        && rows == old(rows)[id := rec] && touched == old(touched) + 1 && clock == old(clock) + 1
        && |old(born)| == |indexes| && born == BornAgain(old(born), id, old(rows)[id], rec, old(clock))
      ensures r != Accepted ==>
        && rows == old(rows) && touched == old(touched) && clock == old(clock) && born == old(born)
        && Views() == old(Views())
    {
      hide *;
      ValidParts();
      RowSlot(id);
      StoreVerdictIs(id, rec);
      var before := pages[id.pageNo].records[id.slot];
      if |rec| != recordSize { return Refused; }
      if !keepsBlobs(before, rec) { return Refused; }
      if !admits(rec) { return Refused; }
      r := CheckKeyIndexes(rec, Some(before));
      if r != Accepted { return; }
      ghost var views := Views();
      AllReplaced(views, rows, born, clock, id, rec);
      StoreRecord(id, rec);
      r := IndexReplace(id, before, rec);
      born := BornAgain(born, id, before, rec, clock);
      clock := clock + 1;
      MakeValid();
    }

    /** The verdict on a change, by the records alone. */
    lemma StoreByRows(id: RecordID, rec: Record)
      requires Valid()
      ensures StoreVerdict(id, rec) == Accepted <==> !closed && Storable(rows, id, rec)
      ensures StoreVerdict(id, rec) == Refused <==>
        !closed && id in rows && (|rec| != recordSize || !keepsBlobs(rows[id], rec) || !admits(rec))
    {
      hide KeyVerdict, KeysFree, AllKept, LeavesValid, RecordsOk;
      LeafParts();
      if id in rows {
        KeysByRows(Views(), rows, born, clock, rec, Some(id));
        KeyRefusals(Views(), rec, Some(rows[id]), 0);
      }
    }

    lemma StoreVerdictIs(id: RecordID, rec: Record)
      requires LeavesValid() && !closed && id in rows
      ensures |Views()| == |leaves| == |indexes|
      ensures StoreVerdict(id, rec) ==
        if |rec| != recordSize || !keepsBlobs(rows[id], rec) || !admits(rec) then Refused
        else KeyVerdict(Views(), rec, Some(rows[id]), 0)
    {
      hide KeyVerdict;
    }

    /** Overwrites an existing record. */
    method Update(id: RecordID, rec: Record) returns (r: Outcome)
      requires Valid()
      modifies this`pages, this`touched, this`dirty, this`rows, this`born, this`clock, payloads
      ensures Valid() && r == old(StoreVerdict(id, rec))
      ensures r == Accepted <==> !closed && Storable(old(rows), id, rec)
      ensures r == Refused <==>
        !closed && id in old(rows) && (|rec| != recordSize || !keepsBlobs(old(rows)[id], rec) || !admits(rec))
      ensures r == Accepted ==>
        && id in old(rows) && rows == old(rows)[id := rec] && touched == old(touched) + 1 && clock == old(clock) + 1
        && |old(born)| == |indexes| && born == BornAgain(old(born), id, old(rows)[id], rec, old(clock))
      ensures r != Accepted ==>
        && rows == old(rows) && touched == old(touched) && clock == old(clock) && born == old(born)
        && Views() == old(Views())
    {
      hide *;
      ValidParts();
      RowSlot(id);
      SlotIsRow(id);
      NoStore(id, rec);
      StoreByRows(id, rec);
      r := SlotCheck(id, true);
      if r != Accepted { return; }
      r := StoreRecordReindexing(id, rec);
    }

    lemma NoStore(id: RecordID, rec: Record)
      requires LeavesValid()
      ensures closed ==> StoreVerdict(id, rec) == Closed
      ensures !closed && id !in rows ==> StoreVerdict(id, rec) == NoRecord
      ensures StoreVerdict(id, rec) == Accepted ==> id in rows
    {
      hide KeyVerdict;
    }

    /** A record can become what the encoder makes of it. */
    ghost predicate ColumnStorable(rows: Rows, id: RecordID, encode: Record -> Option<Record>)
    {
      id in rows && encode(rows[id]).Some? && Storable(rows, id, encode(rows[id]).value)
    }

    lemma ColumnStorableIs(id: RecordID, encode: Record -> Option<Record>)
      ensures id !in rows ==> !ColumnStorable(rows, id, encode)
      ensures id in rows ==>
        (ColumnStorable(rows, id, encode) <==>
           encode(rows[id]).Some? && Storable(rows, id, encode(rows[id]).value))
    {
      hide KeysFree;
    }

    /** Changes part of an existing record; the encoder says what the whole record becomes, or fails. */
    method UpdateColumn(id: RecordID, encode: Record -> Option<Record>) returns (r: Outcome)
      requires Valid()
      modifies this`pages, this`touched, this`dirty, this`rows, this`born, this`clock, payloads
      ensures Valid()
      ensures r == if old(closed) then Closed else if id !in old(rows) then NoRecord
                   else match encode(old(rows)[id])
                        case None => Refused
                        case Some(rec) => old(StoreVerdict(id, rec))
      ensures r == Accepted <==> !closed && ColumnStorable(old(rows), id, encode)
      ensures r == Accepted ==>
        && id in old(rows) && encode(old(rows)[id]).Some?
        && rows == old(rows)[id := encode(old(rows)[id]).value] && touched == old(touched) + 1
      ensures r != Accepted ==> rows == old(rows) && touched == old(touched) && Views() == old(Views())
    {
      hide *;
      ValidParts();
      RowSlot(id);
      SlotIsRow(id);
      ColumnStorableIs(id, encode);
      r := SlotCheck(id, true);
      if r != Accepted { return; }
      match encode(pages[id.pageNo].records[id.slot]) {
        case None => r := Refused;
        case Some(rec) =>
          StoreByRows(id, rec);
          r := StoreRecordReindexing(id, rec);
      }
    }

    /** Removes a record and its entry in every index. */
    method Delete(id: RecordID) returns (r: Outcome)
      requires Valid()
      modifies this`pages, this`delta, this`touched, this`dirty, this`rows, payloads
      ensures Valid()
      ensures r == if closed then Closed else if id !in old(rows) then NoRecord else Accepted
      ensures r == Accepted ==>
        && rows == old(rows) - {id} && touched == old(touched) + 1
        && id.pageNo in old(pages) && 0 <= id.slot < |old(pages)[id.pageNo].occupied|
        && pages == Cleared(old(pages), id)
      ensures r != Accepted ==>
        rows == old(rows) && touched == old(touched) && pages == old(pages) && Views() == old(Views())
    {
      hide *;
      ValidParts();
      RowSlot(id);
      SlotIsRow(id);
      r := SlotCheck(id, true);
      if r != Accepted { return; }
      ghost var views := Views();
      AllDropped(views, rows, born, clock, id);
      r := IndexRemove(id);
      ClearRecord(id);
      MakeValid();
    }

    // -- opening and whole runs ----------------------------------------------------------------------------

    /** Opens a table whose leaves agree with its records. */
    constructor (recordsPerPage: nat, recordSize: nat, pageRoom: nat, indexes: seq<Index>, leaves: seq<IndexLeaf>,
        admits: Record -> bool, keepsBlobs: (Record, Record) -> bool, dataPages: seq<int>, pages: Pages,
        pageIndex: seq<PageCount>, recordCount: int, changes: nat, ghost rows: Rows)
      requires recordsPerPage < 65536 && changes < 0x1_0000_0000 && Listed(pageIndex, dataPages)
      requires Shaped(dataPages, pages, recordsPerPage) && RowsAre(dataPages, pages, recordsPerPage, rows)
      requires |indexes| == |leaves| && LeavesFit(indexes, leaves)
      requires forall k :: 0 <= k < |leaves| ==>
        leaves[k].Valid() && Agrees(leaves[k].Contents(), rows, indexes[k].unique, leaves[k].cmp, indexes[k].keyOf)
      ensures Valid() && !closed && this.rows == rows && this.leaves == leaves && touched == 0
      ensures this.recordsPerPage == recordsPerPage && this.pageRoom == pageRoom && this.admits == admits
      ensures this.indexes == indexes && this.dataPages == dataPages && this.pages == pages
      ensures this.pageIndex == pageIndex && this.recordCount == recordCount && this.changes == changes
      ensures payloads == set l | l in leaves :: l.payload
    {
      hide *;
      this.recordsPerPage, this.recordSize, this.pageRoom := recordsPerPage, recordSize, pageRoom;
      this.indexes, this.leaves, this.admits, this.keepsBlobs := indexes, leaves, admits, keepsBlobs;
      this.dataPages, this.pages, this.pageIndex := dataPages, pages, pageIndex;
      this.recordCount, this.changes, this.rows := recordCount, changes, rows;
      delta, touched, dirty, closed := map[], 0, false, false;
      payloads := set l | l in leaves :: l.payload;
      clock := 65536;
      atOpen := map no | no in dataPages :: Counted(pages, no);
      new;
      CountRows(dataPages, pages, recordsPerPage, rows);
      OpenNoted(dataPages, pages, recordsPerPage, atOpen);
      OpenRecords();
      OpenLeaves();
      born := FirstBirths(Views());
      OpenKept(Views(), rows);
      MakeValid();
    }

    lemma OpenRecords()
      requires Shaped(dataPages, pages, recordsPerPage) && RowsAre(dataPages, pages, recordsPerPage, rows)
      requires AllCounted(dataPages, pages, rows) && Listed(pageIndex, dataPages) && recordsPerPage < 65536
      requires delta == map[] && touched == 0 && changes < 0x1_0000_0000
      requires Noted(dataPages, pages, recordsPerPage, delta, atOpen)
      ensures RecordsOk()
    {
    }

    lemma OpenLeaves()
      requires |indexes| == |leaves| && LeavesFit(indexes, leaves)
      requires forall k :: 0 <= k < |leaves| ==> leaves[k].Valid()
      requires payloads == set l | l in leaves :: l.payload
      ensures LeavesValid() && |Views()| == |leaves|
      ensures forall k :: 0 <= k < |leaves| ==> Views()[k] == leaves[k].Contents() && |Views()[k]| <= 65536
    {
      hide LeavesFit, EntryOf, LeafOk;
      forall k | 0 <= k < |leaves|
        ensures |leaves[k].Contents()| <= 65536
      {
      }
    }

    ghost function FirstBirths(views: seq<seq<Entry>>): (r: seq<Births>)
      ensures |r| == |views| && forall k :: 0 <= k < |views| ==> r[k] == Positions(views[k])
    {
      seq(|views|, k requires 0 <= k < |views| => Positions(views[k]))
    }

    lemma OpenKept(views: seq<seq<Entry>>, rows: Rows)
      requires |views| == |leaves| == |indexes|
      requires forall k :: 0 <= k < |views| ==>
        |views[k]| <= 65536 && Agrees(views[k], rows, indexes[k].unique, leaves[k].cmp, indexes[k].keyOf)
      ensures AllKept(views, rows, FirstBirths(views), 65536)
    {
      hide Agrees, Kept, Positions;
      forall k | 0 <= k < |views|
        ensures Kept(views[k], rows, FirstBirths(views)[k], 65536, indexes[k].unique, leaves[k].cmp, indexes[k].keyOf)
      {
        KeptAsFound(views[k], rows, indexes[k].unique, leaves[k].cmp, indexes[k].keyOf, 65536);
      }
    }

    /** What is asked for can be done, by the records and the data pages alone. */
    ghost predicate Allowed(rows: Rows, dataPages: seq<int>, op: Op, spareFor: seq<int> -> Option<SparePage>)
    {
      match op
      case InsertOp(rec) => Insertable(rows, dataPages, rec, spareFor(dataPages))
      case UpdateOp(id, rec) => Storable(rows, id, rec)
      case UpdateColumnOp(id, encode) => ColumnStorable(rows, id, encode)
      case DeleteOp(id) => id in rows
    }

    /** The data pages after an operation. */
    ghost function PagesAfter(rows: Rows, dataPages: seq<int>, op: Op,
        spareFor: seq<int> -> Option<SparePage>): seq<int>
    {
      if op.InsertOp? && Fits(rows, op.rec) && AllTaken(rows, dataPages, recordsPerPage)
        && CanGrow(dataPages, spareFor(dataPages))
      then dataPages + [spareFor(dataPages).value.no]
      else dataPages
    }

    /** The operation was accepted exactly when it could be done, and a new record went where it should. */
    ghost predicate Exact(shut: bool, rows: Rows, dataPages: seq<int>, step: Step,
        spareFor: seq<int> -> Option<SparePage>)
    {
      && (step.outcome == Accepted <==> !shut && Allowed(rows, dataPages, step.op, spareFor))
      && (step.outcome == Accepted && step.op.InsertOp? ==>
            exists at :: Place(rows, dataPages, spareFor(dataPages), at, step.id))
    }

    ghost function PagesThrough(rows: Rows, dataPages: seq<int>, log: seq<Step>,
        spareFor: seq<int> -> Option<SparePage>): seq<int>
    {
      if log == [] then dataPages
      else
        var n := |log| - 1;
        PagesAfter(Replayed(rows, log[..n]), PagesThrough(rows, dataPages, log[..n], spareFor), log[n].op, spareFor)
    }

    /** So was every operation of a run, at the records and data pages it met. */
    ghost predicate AllExact(shut: bool, rows: Rows, dataPages: seq<int>, log: seq<Step>,
        spareFor: seq<int> -> Option<SparePage>)
    {
      forall i :: 0 <= i < |log| ==>
        Exact(shut, Replayed(rows, log[..i]), PagesThrough(rows, dataPages, log[..i], spareFor), log[i], spareFor)
    }

    lemma ExactMore(shut: bool, rows: Rows, dataPages: seq<int>, log: seq<Step>, step: Step,
        spareFor: seq<int> -> Option<SparePage>)
      requires AllExact(shut, rows, dataPages, log, spareFor)
      requires Exact(shut, Replayed(rows, log), PagesThrough(rows, dataPages, log, spareFor), step, spareFor)
      ensures AllExact(shut, rows, dataPages, log + [step], spareFor)
      ensures PagesThrough(rows, dataPages, log + [step], spareFor)
        == PagesAfter(Replayed(rows, log), PagesThrough(rows, dataPages, log, spareFor), step.op, spareFor)
    {
      hide Exact, PagesAfter, Replayed;
      var longer := log + [step];
      assert longer[..|log|] == log;
      forall i | 0 <= i < |longer|
        ensures Exact(shut, Replayed(rows, longer[..i]), PagesThrough(rows, dataPages, longer[..i], spareFor),
            longer[i], spareFor)
      {
        if i < |log| { assert longer[..i] == log[..i]; }
      }
    }

    /** Every record there is meets the constraints, or was there before. */
    ghost predicate AdmittedSince(before: Rows, after: Rows)
    {
      forall id :: id in after ==> admits(after[id]) || (id in before && before[id] == after[id])
    }

    lemma StepAdmits(shut: bool, before: Rows, rows: Rows, dataPages: seq<int>, step: Step,
        spareFor: seq<int> -> Option<SparePage>)
      requires AdmittedSince(before, rows) && Exact(shut, rows, dataPages, step, spareFor)
      ensures AdmittedSince(before, StepRows(rows, step))
    {
      hide Place, KeysFree, RoomFor, AllTaken;
    }

    /** A run stores no record the constraints refuse. */
    lemma {:induction false} RunAdmits(shut: bool, rows: Rows, dataPages: seq<int>, log: seq<Step>,
        spareFor: seq<int> -> Option<SparePage>)
      requires AllExact(shut, rows, dataPages, log, spareFor)
      ensures AdmittedSince(rows, Replayed(rows, log))
    {
      hide Exact, AdmittedSince, PagesAfter;
      if log == [] {
        SinceStart(rows);
      } else {
        var n := |log| - 1;
        assert AllExact(shut, rows, dataPages, log[..n], spareFor) by {
          forall i | 0 <= i < n
            ensures Exact(shut, Replayed(rows, log[..n][..i]), PagesThrough(rows, dataPages, log[..n][..i], spareFor),
              log[..n][i], spareFor)
          {
            assert log[..n][..i] == log[..i];
          }
        }
        RunAdmits(shut, rows, dataPages, log[..n], spareFor);
        StepAdmits(shut, rows, Replayed(rows, log[..n]), PagesThrough(rows, dataPages, log[..n], spareFor), log[n],
          spareFor);
      }
    }

    lemma SinceStart(rows: Rows)
      ensures AdmittedSince(rows, rows)
    {
    }

    lemma NothingExact(shut: bool, rows: Rows, dataPages: seq<int>, spareFor: seq<int> -> Option<SparePage>)
      ensures AllExact(shut, rows, dataPages, [], spareFor) && PagesThrough(rows, dataPages, [], spareFor) == dataPages
    {
    }

    /** Carries out one operation. */
    method Perform(op: Op, spareFor: seq<int> -> Option<SparePage>) returns (step: Step)
      requires Valid() && Allocator(spareFor, recordsPerPage)
      modifies this`dataPages, this`pages, this`pageIndex, this`delta, this`touched, this`dirty, this`rows, this`born,
        this`clock, this`atOpen, payloads
      ensures Valid() && step.op == op && Sensible(old(rows), step) && rows == StepRows(old(rows), step)
      ensures Exact(closed, old(rows), old(dataPages), step, spareFor) && closed == old(closed)
      ensures dataPages == PagesAfter(old(rows), old(dataPages), op, spareFor)
      ensures touched == old(touched) + if step.outcome == Accepted then 1 else 0
      ensures old(CountsTrue(pageIndex, atOpen)) ==> CountsTrue(pageIndex, atOpen)
      ensures SumCounts(pageIndex) == SumCounts(old(pageIndex))
    {
      hide *;
      ghost var before, index, listed, open := rows, pageIndex, dataPages, atOpen;
      ValidParts();
      match op {
        case InsertOp(rec) =>
          var spare := spareFor(dataPages);
          SpareFits(spareFor);
          InsertByRows(rec, spare);
          ghost var grows := Grows(rec, spare);
          PlusNothing(before);
          if grows { GrowsWhen(rec, spare); }
          var r, id, at := Insert(rec, spare);
          NoneBrought(grows, spare);
          if grows { SumGrown(index, spare.value.no); }
          if grows && CountsTrue(index, open) { GrownTrue(index, listed, open, spare.value.no, spare.value.page); }
          step := Step(op, r, id);
        case UpdateOp(id, rec) =>
          var r := Update(id, rec);
          step := Step(op, r, id);
        case UpdateColumnOp(id, encode) =>
          var r := UpdateColumn(id, encode);
          step := Step(op, r, id);
        case DeleteOp(id) =>
          var r := Delete(id);
          step := Step(op, r, id);
      }
      StepIs(before, step);
      ExactIs(closed, before, listed, step, spareFor);
    }

    lemma ExactIs(shut: bool, rows: Rows, dataPages: seq<int>, step: Step, spareFor: seq<int> -> Option<SparePage>)
      ensures !step.op.InsertOp? ==>
        && PagesAfter(rows, dataPages, step.op, spareFor) == dataPages
        && (Exact(shut, rows, dataPages, step, spareFor) <==>
              (step.outcome == Accepted <==> !shut && Allowed(rows, dataPages, step.op, spareFor)))
        && Allowed(rows, dataPages, step.op, spareFor) ==
             match step.op
             case UpdateOp(id, rec) => Storable(rows, id, rec)
             case UpdateColumnOp(id, encode) => ColumnStorable(rows, id, encode)
             case DeleteOp(id) => id in rows
      ensures step.op.InsertOp? ==>
        && PagesAfter(rows, dataPages, step.op, spareFor)
           == (if Fits(rows, step.op.rec) && AllTaken(rows, dataPages, recordsPerPage)
                 && CanGrow(dataPages, spareFor(dataPages))
               then dataPages + [spareFor(dataPages).value.no] else dataPages)
        && (Exact(shut, rows, dataPages, step, spareFor) <==>
              && (step.outcome == Accepted <==> !shut && Insertable(rows, dataPages, step.op.rec, spareFor(dataPages)))
              && (step.outcome == Accepted ==>
                    exists at :: Place(rows, dataPages, spareFor(dataPages), at, step.id)))
    {
      hide Fits, AllTaken, CanGrow, Insertable, Place, Storable, ColumnStorable;
    }

    lemma StepIs(before: Rows, step: Step)
      ensures step.outcome != Accepted ==> Sensible(before, step) && StepRows(before, step) == before
      ensures step.outcome == Accepted && step.op.InsertOp? ==>
        (Sensible(before, step) <==> step.id !in before) && StepRows(before, step) == before[step.id := step.op.rec]
      ensures step.outcome == Accepted && step.op.UpdateOp? ==>
        && (Sensible(before, step) <==> step.op.id in before)
        && StepRows(before, step) == before[step.op.id := step.op.rec]
      ensures step.outcome == Accepted && step.op.UpdateColumnOp? && step.op.id in before ==>
        step.op.encode(before[step.op.id]).Some? ==>
        && Sensible(before, step)
        && StepRows(before, step) == before[step.op.id := step.op.encode(before[step.op.id]).value]
      ensures step.outcome == Accepted && step.op.DeleteOp? ==>
        (Sensible(before, step) <==> step.op.id in before) && StepRows(before, step) == before - {step.op.id}
    {
    }

    lemma SpareFits(spareFor: seq<int> -> Option<SparePage>)
      requires Valid() && Allocator(spareFor, recordsPerPage)
      ensures SpareOk(spareFor(dataPages)) && Listed(pageIndex, dataPages)
      ensures spareFor(dataPages).Some? ==> Blank(spareFor(dataPages).value.page)
    {
      hide Blank, LeavesValid, AllKept, Shaped, RowsAre, AllCounted, Listed, Noted;
    }

    lemma GrowsWhen(rec: Record, spare: Option<SparePage>)
      requires LeavesValid() && SpareOk(spare) && Grows(rec, spare)
      ensures spare.Some? && spare.value.no !in dataPages && |spare.value.page.occupied| == |spare.value.page.records|
      ensures |spare.value.page.occupied| == recordsPerPage > 0
    {
      hide LeavesValid, InsertCheck;
    }

    lemma NoneBrought(grows: bool, spare: Option<SparePage>)
      ensures !grows ==> Brought(grows, spare) == map[]
    {
    }

    /** Any run of operations keeps records and indexes in agreement, and leaves the records its accepted steps say. */
    method Run(ops: seq<Op>, spareFor: seq<int> -> Option<SparePage>) returns (log: seq<Step>)
      requires Valid() && Allocator(spareFor, recordsPerPage)
      modifies this`dataPages, this`pages, this`pageIndex, this`delta, this`touched, this`dirty, this`rows, this`born,
        this`clock, this`atOpen, payloads
      ensures Valid() && |log| == |ops| && forall i :: 0 <= i < |log| ==> log[i].op == ops[i]
      ensures AllSensible(old(rows), log) && rows == Replayed(old(rows), log)
      ensures AllExact(closed, old(rows), old(dataPages), log, spareFor) && AdmittedSince(old(rows), rows)
      ensures dataPages == PagesThrough(old(rows), old(dataPages), log, spareFor)
      ensures touched == old(touched) + AcceptedSteps(log)
      ensures old(CountsTrue(pageIndex, atOpen)) ==> CountsTrue(pageIndex, atOpen)
      ensures SumCounts(pageIndex) == SumCounts(old(pageIndex))
    {
      hide *;
      ghost var before, begun, listed := rows, touched, dataPages;
      NoSteps(before);
      NothingExact(closed, before, listed, spareFor);
      log := [];
      for i := 0 to |ops|
        invariant Valid() && |log| == i && forall k :: 0 <= k < i ==> log[k].op == ops[k]
        invariant AllSensible(before, log) && rows == Replayed(before, log)
        invariant AllExact(closed, before, listed, log, spareFor)
        invariant dataPages == PagesThrough(before, listed, log, spareFor)
        invariant touched == begun + AcceptedSteps(log)
        invariant old(CountsTrue(pageIndex, atOpen)) ==> CountsTrue(pageIndex, atOpen)
        invariant SumCounts(pageIndex) == SumCounts(old(pageIndex))
      {
        var step := Perform(ops[i], spareFor);
        Replay(before, log, step);
        ExactMore(closed, before, listed, log, step, spareFor);
        log := log + [step];
      }
      RunAdmits(closed, before, listed, log, spareFor);
    }

    /** A run and its commit on a table whose counts are right: every page's count, the record count and the change
        counter come out right. */
    method RunAndCommit(ops: seq<Op>, spareFor: seq<int> -> Option<SparePage>) returns (log: seq<Step>, r: Outcome)
      requires Valid() && !closed && Allocator(spareFor, recordsPerPage) && touched == 0
      requires CountsTrue(pageIndex, atOpen) && recordCount == SumCounts(pageIndex)
      modifies this, payloads
      ensures |log| == |ops| && (forall i :: 0 <= i < |log| ==> log[i].op == ops[i])
      ensures AllSensible(old(rows), log) && rows == Replayed(old(rows), log)
      ensures AllExact(false, old(rows), old(dataPages), log, spareFor) && AdmittedSince(old(rows), rows)
      ensures |rows| <= 0x7fff_ffff && |ops| <= 0x7fff_ffff ==>
        && r == Accepted && recordCount == |rows| == SumCounts(pageIndex)
        && changes == (old(changes) + AcceptedSteps(log)) % 0x1_0000_0000
        && forall i :: 0 <= i < |pageIndex| ==> pageIndex[i].count == Counted(pages, pageIndex[i].pageNo)
    {
      hide *;
      log := Run(ops, spareFor);
      ValidParts();
      StepsBound(log);
      r := Commit();
    }

    // -- commit --------------------------------------------------------------------------------------------

    /** The records on a page. */
    method OccupiedSlots(no: int) returns (count: nat)
      requires no in pages && |pages[no].occupied| == recordsPerPage
      ensures count == Ones(pages[no].occupied)
    {
      count := 0;
      var bitmap := pages[no].occupied;
      for slot := 0 to recordsPerPage
        invariant count == Ones(bitmap[..slot])
      {
        assert bitmap[..slot + 1][..slot] == bitmap[..slot];
        if bitmap[slot] { count := count + 1; }
      }
      assert bitmap[..recordsPerPage] == bitmap;
    }

    /** The new entry for a page: the count of its occupied slots when records came or went. */
    ghost function Recounted(entry: PageCount): PageCount
      reads this`pages, this`delta
    {
      if Change(delta, entry.pageNo) == 0 then entry else PageCount(entry.pageNo, Counted(pages, entry.pageNo))
    }

    /** Rewrites the counts of the pages that changed, if the old ones were right. */
    method UpdatePageCounts() returns (r: Outcome, total: int)
      requires Shaped(dataPages, pages, recordsPerPage) && Listed(pageIndex, dataPages)
      requires Noted(dataPages, pages, recordsPerPage, delta, atOpen) && recordsPerPage < 65536
      modifies this`pageIndex
      ensures total == SumCounts(old(pageIndex)) && |pageIndex| == |old(pageIndex)|
      ensures forall i :: 0 <= i < |pageIndex| ==> pageIndex[i].pageNo == old(pageIndex)[i].pageNo
      ensures r == if ChangedTrue(old(pageIndex), delta, atOpen) then Accepted else Mismatch
      ensures r == Accepted ==> forall i :: 0 <= i < |pageIndex| ==> pageIndex[i] == Recounted(old(pageIndex)[i])
    {
      hide Distinct, SumCounts, Ones;
      ghost var index := pageIndex;
      total := TotalCount();
      for i := 0 to |pageIndex|
        invariant |pageIndex| == |index|
        invariant forall k :: 0 <= k < |index| ==> pageIndex[k].pageNo == index[k].pageNo
        invariant forall k :: 0 <= k < i ==>
          && (Change(delta, index[k].pageNo) != 0 ==> CountTrue(index[k], atOpen))
          && pageIndex[k] == Recounted(index[k])
        invariant forall k :: i <= k < |index| ==> pageIndex[k] == index[k]
      {
        var entry := pageIndex[i].pageNo;
        assert entry == index[i].pageNo && entry in dataPages;
        if Change(delta, entry) == 0 { continue; }
        var occupied := OccupiedSlots(entry);
        if pageIndex[i].count != occupied - Change(delta, entry) {
          assert !CountTrue(index[i], atOpen);
          return Mismatch, total;
        }
        if occupied > 65535 { return Mismatch, total; }
        pageIndex := pageIndex[i := PageCount(entry, occupied)];
      }
      r := Accepted;
    }

    method TotalCount() returns (total: int)
      ensures total == SumCounts(pageIndex)
    {
      total := 0;
      for i := 0 to |pageIndex|
        invariant total == SumCounts(pageIndex[..i])
      {
        assert pageIndex[..i + 1][..i] == pageIndex[..i];
        total := total + pageIndex[i].count;
      }
      assert pageIndex[..|pageIndex|] == pageIndex;
    }

    /** The records added, less those removed. */
    method AddedRecords() returns (added: int)
      ensures added == SumOver(delta.Keys, Changes(delta))
    {
      hide SumOver;
      var changed := delta;
      var keys := changed.Keys;
      added := 0;
      SumNone(Changes(changed));
      while keys != {}
        invariant keys <= changed.Keys
        invariant added + SumOver(keys, Changes(changed)) == SumOver(changed.Keys, Changes(changed))
        decreases |keys|
      {
        ghost var any := Any(keys);
        assert any in keys;
        var no :| no in keys;
        SumTake(keys, Changes(changed), no);
        added := added + changed[no];
        keys := keys - {no};
      }
    }

    /** Advances the table's record count and change counter, where the file keeps the count. */
    method UpdateCounters(before: int) returns (r: Outcome)
      modifies this`recordCount, this`changes
      ensures var total := before + SumOver(delta.Keys, Changes(delta));
        if old(recordCount) != before then r == Accepted && recordCount == old(recordCount) && changes == old(changes)
        else if 0 <= total <= 0x7fff_ffff && touched <= 0x7fff_ffff then
          r == Accepted && recordCount == total && changes == (old(changes) + touched) % 0x1_0000_0000
        else r == Mismatch && changes == old(changes)
    {
      hide SumOver;
      if recordCount != before { return Accepted; }
      var added := AddedRecords();
      var total := before + added;
      if total < 0 || total > 0x7fff_ffff { return Mismatch; }
      recordCount := total;
      if touched > 0x7fff_ffff { return Mismatch; }
      changes := (changes + touched) % 0x1_0000_0000;
      r := Accepted;
    }

    /** A page index that was right is right again: every count that of the page's occupied slots now. */
    lemma RecountedRight(index: seq<PageCount>, after: seq<PageCount>)
      requires Shaped(dataPages, pages, recordsPerPage) && Noted(dataPages, pages, recordsPerPage, delta, atOpen)
      requires Listed(index, dataPages) && CountsTrue(index, atOpen) && |after| == |index|
      requires forall i :: 0 <= i < |after| ==> after[i] == Recounted(index[i])
      ensures forall i :: 0 <= i < |after| ==> after[i].count == Counted(pages, after[i].pageNo)
      ensures Listed(after, dataPages)
    {
      hide Distinct, Ones;
      forall i | 0 <= i < |after|
        ensures after[i].count == Counted(pages, after[i].pageNo) && after[i].pageNo == index[i].pageNo
      {
        assert CountTrue(index[i], atOpen);
      }
    }

    /** What a page index right at the start says of the records now. */
    lemma CommitSums(index: seq<PageCount>)
      requires RecordsOk() && !closed && CountsTrue(index, atOpen) && index == pageIndex
      ensures |rows| == SumCounts(index) + SumOver(delta.Keys, Changes(delta))
      ensures ChangedTrue(index, delta, atOpen)
      ensures !dirty ==>
        && (forall i :: 0 <= i < |index| ==> index[i].count == Counted(pages, index[i].pageNo))
        && SumOver(delta.Keys, Changes(delta)) == 0
    {
      hide Distinct, Ones, SumOver, SumCounts, RowsAre;
      RecordsSince(dataPages, pages, recordsPerPage, rows, index, delta, atOpen);
      if !dirty {
        assert forall i :: 0 <= i < |index| ==> index[i] == Recounted(index[i]);
        RecountedRight(index, index);
        assert delta.Keys == {};
        SumNone(Changes(delta));
      }
    }

    lemma CommitCounts(index: seq<PageCount>, after: seq<PageCount>)
      requires Shaped(dataPages, pages, recordsPerPage) && Noted(dataPages, pages, recordsPerPage, delta, atOpen)
      requires AllCounted(dataPages, pages, rows) && Listed(index, dataPages) && CountsTrue(index, atOpen)
      requires |after| == |index|
      requires forall i :: 0 <= i < |after| ==> after[i] == Recounted(index[i])
      ensures forall i :: 0 <= i < |after| ==> after[i].count == Counted(pages, after[i].pageNo)
      ensures SumCounts(after) == |rows|
    {
      hide Distinct, Ones, SumOver, SumCounts, RowsAre, Recounted, AllCounted;
      RecountedRight(index, after);
      RecordsNow(dataPages, pages, recordsPerPage, rows, after);
    }

    /** A count that is wrong for a page where records came or went stops the commit. */
    ghost function CommitVerdict(): Outcome
      reads this`pageIndex, this`delta, this`atOpen, this`recordCount, this`touched, this`closed, this`dirty
    {
      var added := SumOver(delta.Keys, Changes(delta));
      if closed then Closed
      else if !dirty then Accepted
      else if !ChangedTrue(pageIndex, delta, atOpen) then Mismatch
      else if recordCount == SumCounts(pageIndex)
        && (recordCount + added > 0x7fff_ffff || touched > 0x7fff_ffff || recordCount + added < 0)
      then Mismatch
      else Accepted
    }

    /** Brings the engine's counters in step with the changes and closes the writer. When the counts were right
        before, afterwards every page's count is that of its occupied slots, and the record count, where it was
        kept, the number of records; the change counter has moved by the records touched. */
    method Commit() returns (r: Outcome)
      requires RecordsOk()
      modifies this`pageIndex, this`recordCount, this`changes, this`closed
      ensures closed && r == old(CommitVerdict())
      ensures !old(closed) && CountsTrue(old(pageIndex), atOpen) && |rows| <= 0x7fff_ffff && touched <= 0x7fff_ffff ==>
        && r == Accepted
        && (forall i :: 0 <= i < |pageIndex| ==> pageIndex[i].count == Counted(pages, pageIndex[i].pageNo))
        && SumCounts(pageIndex) == |rows|
        && (if old(recordCount) == SumCounts(old(pageIndex)) then
              recordCount == |rows| && changes == (old(changes) + touched) % 0x1_0000_0000
            else recordCount == old(recordCount) && changes == old(changes))
      ensures |pageIndex| == |old(pageIndex)|
      ensures forall i :: 0 <= i < |pageIndex| ==> pageIndex[i].pageNo == old(pageIndex)[i].pageNo
    {
      hide *;
      CommitSteps();
      if closed { return Closed; }
      ghost var index, right := pageIndex, CountsTrue(pageIndex, atOpen);
      RecordsParts();
      if right { CommitSums(index); }
      closed := true;
      if !dirty { return Accepted; }
      var total;
      r, total := UpdatePageCounts();
      if r != Accepted { return; }
      if right { CommitCounts(index, pageIndex); }
      r := UpdateCounters(total);
    }

    lemma RecordsParts()
      requires RecordsOk() && !closed
      ensures Shaped(dataPages, pages, recordsPerPage) && Listed(pageIndex, dataPages) && recordsPerPage < 65536
      ensures Noted(dataPages, pages, recordsPerPage, delta, atOpen) && AllCounted(dataPages, pages, rows)
      ensures (!dirty ==> touched == 0) && changes < 0x1_0000_0000
    {
    }

    lemma CommitSteps()
      ensures CommitVerdict() == (var added := SumOver(delta.Keys, Changes(delta));
        if closed then Closed
        else if !dirty then Accepted
        else if !ChangedTrue(pageIndex, delta, atOpen) then Mismatch
        else if recordCount == SumCounts(pageIndex)
          && !(0 <= recordCount + added <= 0x7fff_ffff && touched <= 0x7fff_ffff)
        then Mismatch else Accepted)
    {
    }
  }

  /** Two pages as a dropped table leaves them, handed to a table without pages: the first insert finds its slot
      taken, or goes through beside a record nobody inserted and the commit fails. */
  method ReusedPages() returns (first: Outcome, second: Outcome, commit: Outcome)
    ensures first == SlotOccupied && second == Accepted && commit == Mismatch
  {
    var none;
    first, none := InsertOnPage(DataPage([true, false], [[1], [2]]));
    second, commit := InsertOnPage(DataPage([false, true], [[1], [2]]));
  }

  /** One insert into a table that has to take the page, and its commit. */
  method InsertOnPage(page: DataPage) returns (r: Outcome, c: Outcome)
    requires |page.occupied| == 2 == |page.records|
    ensures r == if page.occupied[0] then SlotOccupied else Accepted
    ensures r == Accepted && page.occupied[1] ==> c == Mismatch
  {
    hide TableWriter.Valid, TableWriter.Grows, TableWriter.LeavesValid;
    var w := EmptyTable();
    assert page.occupied[1] ==> !Blank(page);
    r, c := w.GrowAndCommit([7], Some(SparePage(5, page)));
  }

  /** A table of two records a page, without pages or indexes. */
  method EmptyTable() returns (w: TableWriter)
    ensures fresh(w) && w.Valid() && !w.closed && w.dataPages == [] && w.recordsPerPage == 2 && w.payloads == {}
    ensures forall rec, spare: Option<SparePage> :: spare.Some? ==> w.Grows(rec, spare)
  {
    w := new TableWriter(2, 1, 10, [], [], _ => true, (_, _) => true, [], map[], [], 0, 0, map[]);
  }
}
