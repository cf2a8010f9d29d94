/** Data pages of fixed record slots, the records they hold and the counts kept of them. */
module SlotPages {
  import opened IndexedRows

  /** A data page: the occupancy bitmap and the slots, which keep the bytes of deleted records. */
  datatype DataPage = DataPage(occupied: seq<bool>, records: seq<Record>)

  /** An entry of the record-page index. */
  datatype PageCount = PageCount(pageNo: int, count: nat)

  type Pages = map<int, DataPage>

  function Ones(s: seq<bool>): (n: nat)
    ensures n <= |s|
  {
    if s == [] then 0 else (if s[|s| - 1] then 1 else 0) + Ones(s[..|s| - 1])
  }

  lemma {:induction false} OnesUpdate(s: seq<bool>, i: nat, b: bool)
    requires i < |s|
    ensures Ones(s[i := b]) == Ones(s) - (if s[i] then 1 else 0) + (if b then 1 else 0)
  {
    var t := s[i := b];
    if i < |s| - 1 {
      OnesUpdate(s[..|s| - 1], i, b);
      assert t[..|s| - 1] == s[..|s| - 1][i := b];
    } else {
      assert t[..|s| - 1] == s[..|s| - 1];
    }
  }

  lemma {:induction false} NoOnes(s: seq<bool>)
    requires forall i :: 0 <= i < |s| ==> !s[i]
    ensures Ones(s) == 0
  {
    if s != [] { NoOnes(s[..|s| - 1]); }
  }

  ghost predicate Distinct(s: seq<int>)
  {
    forall i, j :: 0 <= i < j < |s| ==> s[i] != s[j]
  }

  /** Every data page has n slots. */
  ghost predicate Shaped(dataPages: seq<int>, pages: Pages, n: nat)
  {
    && Distinct(dataPages)
    && forall no :: no in dataPages ==>
      0 <= no <= 0x7fff_ffff && no in pages && |pages[no].occupied| == n == |pages[no].records|
  }

  predicate IsRecord(dataPages: seq<int>, pages: Pages, id: RecordID)
  {
    && id.pageNo in dataPages && id.pageNo in pages && 0 <= id.slot < |pages[id.pageNo].occupied|
    && pages[id.pageNo].occupied[id.slot]
  }

  /** The records are what the occupied slots hold. */
  ghost predicate RowsAre(dataPages: seq<int>, pages: Pages, n: nat, rows: Rows)
    requires Shaped(dataPages, pages, n)
  {
    && (forall id :: id in rows <==> IsRecord(dataPages, pages, id))
    && forall id :: id in rows ==> rows[id] == pages[id.pageNo].records[id.slot]
  }

  function Change(delta: map<int, int>, no: int): int
  {
    if no in delta then delta[no] else 0
  }

  /** The changes noted are the difference to what the pages held when the writer was atOpen. */
  ghost predicate Noted(dataPages: seq<int>, pages: Pages, n: nat, delta: map<int, int>, atOpen: map<int, nat>)
    requires Shaped(dataPages, pages, n)
  {
    forall no :: no in dataPages ==> no in atOpen && Ones(pages[no].occupied) == atOpen[no] + Change(delta, no)
  }

  /** The record-page index lists the data pages, each once. */
  ghost predicate Listed(pageIndex: seq<PageCount>, dataPages: seq<int>)
  {
    && |pageIndex| == |dataPages|
    && (forall i, j :: 0 <= i < j < |pageIndex| ==> pageIndex[i].pageNo != pageIndex[j].pageNo)
    && forall i :: 0 <= i < |pageIndex| ==> pageIndex[i].pageNo in dataPages
  }

  lemma OpenNoted(dataPages: seq<int>, pages: Pages, n: nat, atOpen: map<int, nat>)
    requires Shaped(dataPages, pages, n) && atOpen == map no | no in dataPages :: Counted(pages, no)
    ensures Noted(dataPages, pages, n, map[], atOpen)
  {
    hide Ones, Distinct;
  }

  // -- storing and clearing a slot -----------------------------------------------------------------------

  function Stored(pages: Pages, id: RecordID, rec: Record): Pages
    requires id.pageNo in pages
    requires 0 <= id.slot < |pages[id.pageNo].occupied| && id.slot < |pages[id.pageNo].records|
  {
    var p := pages[id.pageNo];
    pages[id.pageNo := DataPage(p.occupied[id.slot := true], p.records[id.slot := rec])]
  }

  function Cleared(pages: Pages, id: RecordID): Pages
    requires id.pageNo in pages && 0 <= id.slot < |pages[id.pageNo].occupied|
  {
    pages[id.pageNo := pages[id.pageNo].(occupied := pages[id.pageNo].occupied[id.slot := false])]
  }

  lemma StoredRows(dataPages: seq<int>, pages: Pages, n: nat, rows: Rows, id: RecordID, rec: Record)
    requires Shaped(dataPages, pages, n) && RowsAre(dataPages, pages, n, rows)
    requires id.pageNo in dataPages && 0 <= id.slot < n
    ensures Shaped(dataPages, Stored(pages, id, rec), n)
    ensures RowsAre(dataPages, Stored(pages, id, rec), n, rows[id := rec])
  {
    hide Distinct;
  }

  lemma ClearedRows(dataPages: seq<int>, pages: Pages, n: nat, rows: Rows, id: RecordID)
    requires Shaped(dataPages, pages, n) && RowsAre(dataPages, pages, n, rows)
    requires id.pageNo in dataPages && 0 <= id.slot < n
    ensures Shaped(dataPages, Cleared(pages, id), n)
    ensures RowsAre(dataPages, Cleared(pages, id), n, rows - {id})
  {
    hide Distinct;
  }

  lemma StoredNoted(dataPages: seq<int>, pages: Pages, n: nat, delta: map<int, int>, atOpen: map<int, nat>,
      id: RecordID, rec: Record)
    requires Shaped(dataPages, pages, n) && Noted(dataPages, pages, n, delta, atOpen)
    requires id.pageNo in dataPages && 0 <= id.slot < n
    ensures Shaped(dataPages, Stored(pages, id, rec), n)
    ensures pages[id.pageNo].occupied[id.slot] ==> Noted(dataPages, Stored(pages, id, rec), n, delta, atOpen)
    ensures !pages[id.pageNo].occupied[id.slot] ==>
      Noted(dataPages, Stored(pages, id, rec), n, delta[id.pageNo := Change(delta, id.pageNo) + 1], atOpen)
  {
    hide Distinct, Ones;
    OnesUpdate(pages[id.pageNo].occupied, id.slot, true);
  }

  lemma ClearedNoted(dataPages: seq<int>, pages: Pages, n: nat, delta: map<int, int>, atOpen: map<int, nat>,
      id: RecordID)
    requires Shaped(dataPages, pages, n) && Noted(dataPages, pages, n, delta, atOpen)
    requires id.pageNo in dataPages && 0 <= id.slot < n && pages[id.pageNo].occupied[id.slot]
    ensures Shaped(dataPages, Cleared(pages, id), n)
    ensures Noted(dataPages, Cleared(pages, id), n, delta[id.pageNo := Change(delta, id.pageNo) - 1], atOpen)
  {
    hide Distinct, Ones;
    OnesUpdate(pages[id.pageNo].occupied, id.slot, false);
  }

  // -- a free slot ---------------------------------------------------------------------------------------------

  ghost predicate Full(pages: Pages, no: int)
  {
    no in pages && forall s :: 0 <= s < |pages[no].occupied| ==> pages[no].occupied[s]
  }

  /** The lowest free slot of the first page that has one. */
  ghost predicate FirstFree(dataPages: seq<int>, pages: Pages, at: nat, id: RecordID)
  {
    && at < |dataPages| && id.pageNo == dataPages[at] && id.pageNo in pages
    && 0 <= id.slot < |pages[id.pageNo].occupied| && !pages[id.pageNo].occupied[id.slot]
    && (forall s :: 0 <= s < id.slot ==> pages[id.pageNo].occupied[s])
    && forall i :: 0 <= i < at ==> Full(pages, dataPages[i])
  }

  ghost predicate AllFull(dataPages: seq<int>, pages: Pages)
  {
    forall i :: 0 <= i < |dataPages| ==> Full(pages, dataPages[i])
  }

  lemma FreeOrFull(dataPages: seq<int>, pages: Pages, at: nat, id: RecordID)
    requires FirstFree(dataPages, pages, at, id)
    ensures !AllFull(dataPages, pages) && id.pageNo in dataPages && !IsRecord(dataPages, pages, id)
  {
    assert !Full(pages, dataPages[at]);
  }

  /** Every slot of the pages has a record. */
  ghost predicate AllTaken(rows: Rows, dataPages: seq<int>, n: nat)
  {
    forall i, slot :: 0 <= i < |dataPages| && 0 <= slot < n ==> RecordID(dataPages[i], slot) in rows
  }

  /** The lowest slot without a record, on the first page that has one. */
  ghost predicate FirstPlace(rows: Rows, dataPages: seq<int>, n: nat, at: nat, id: RecordID)
  {
    && at < |dataPages| && id.pageNo == dataPages[at] && 0 <= id.slot < n && id !in rows
    && (forall slot :: 0 <= slot < id.slot ==> RecordID(id.pageNo, slot) in rows)
    && AllTaken(rows, dataPages[..at], n)
  }

  lemma FullByRows(dataPages: seq<int>, pages: Pages, n: nat, rows: Rows, no: int)
    requires Shaped(dataPages, pages, n) && RowsAre(dataPages, pages, n, rows) && no in dataPages
    ensures Full(pages, no) <==> forall slot :: 0 <= slot < n ==> RecordID(no, slot) in rows
  {
    hide Distinct;
    if forall slot :: 0 <= slot < n ==> RecordID(no, slot) in rows {
      forall slot | 0 <= slot < n
        ensures pages[no].occupied[slot]
      {
        assert RecordID(no, slot) in rows;
      }
    }
    if Full(pages, no) {
      forall slot | 0 <= slot < n
        ensures RecordID(no, slot) in rows
      {
        assert IsRecord(dataPages, pages, RecordID(no, slot));
      }
    }
  }

  /** All pages are full when no slot is without a record. */
  lemma AllFullByRows(dataPages: seq<int>, pages: Pages, n: nat, rows: Rows)
    requires Shaped(dataPages, pages, n) && RowsAre(dataPages, pages, n, rows)
    ensures AllFull(dataPages, pages) <==> AllTaken(rows, dataPages, n)
  {
    hide Distinct, Full, RowsAre, Shaped;
    forall i | 0 <= i < |dataPages|
      ensures Full(pages, dataPages[i]) <==> forall slot :: 0 <= slot < n ==> RecordID(dataPages[i], slot) in rows
    {
      FullByRows(dataPages, pages, n, rows, dataPages[i]);
    }
  }

  lemma FirstByRows(dataPages: seq<int>, pages: Pages, n: nat, rows: Rows, at: nat, id: RecordID)
    requires Shaped(dataPages, pages, n) && RowsAre(dataPages, pages, n, rows)
    requires FirstFree(dataPages, pages, at, id)
    ensures FirstPlace(rows, dataPages, n, at, id)
  {
    hide Distinct, Full;
    forall i | 0 <= i < at
      ensures forall slot :: 0 <= slot < n ==> RecordID(dataPages[i], slot) in rows
    {
      FullByRows(dataPages, pages, n, rows, dataPages[i]);
    }
    forall slot | 0 <= slot < id.slot
      ensures RecordID(id.pageNo, slot) in rows
    {
      assert IsRecord(dataPages, pages, RecordID(id.pageNo, slot));
    }
  }

  /** No bit of the page's bitmap is set. */
  ghost predicate Blank(page: DataPage)
  {
    forall s :: 0 <= s < |page.occupied| ==> !page.occupied[s]
  }

  /** The records a page appears to hold in its first k slots. */
  function FoundBelow(no: int, page: DataPage, k: nat): (r: Rows)
    requires k <= |page.occupied| <= |page.records|
    ensures forall id :: id in r <==> id.pageNo == no && 0 <= id.slot < k && page.occupied[id.slot]
    ensures forall id :: id in r ==> r[id] == page.records[id.slot]
  {
    if k == 0 then map[]
    else if page.occupied[k - 1] then FoundBelow(no, page, k - 1)[RecordID(no, k - 1) := page.records[k - 1]]
    else FoundBelow(no, page, k - 1)
  }

  /** The records a page appears to hold. */
  function FoundOn(no: int, page: DataPage): (r: Rows)
    requires |page.occupied| == |page.records|
    ensures forall id :: id in r <==> id.pageNo == no && 0 <= id.slot < |page.occupied| && page.occupied[id.slot]
    ensures forall id :: id in r ==> r[id] == page.records[id.slot]
  {
    FoundBelow(no, page, |page.occupied|)
  }

  lemma OnesStep(s: seq<bool>, k: nat)
    requires 0 < k <= |s|
    ensures Ones(s[..k]) == Ones(s[..k - 1]) + if s[k - 1] then 1 else 0
  {
    assert s[..k][..k - 1] == s[..k - 1];
  }

  lemma FoundStep(no: int, page: DataPage, k: nat)
    requires 0 < k <= |page.occupied| <= |page.records|
    ensures |FoundBelow(no, page, k)| == |FoundBelow(no, page, k - 1)| + if page.occupied[k - 1] then 1 else 0
  {
    var below, id := FoundBelow(no, page, k - 1), RecordID(no, k - 1);
    RowCount(below, id, page.records[k - 1]);
    assert id !in below;
  }

  lemma {:induction false} FoundCount(no: int, page: DataPage, k: nat)
    requires k <= |page.occupied| <= |page.records|
    ensures |FoundBelow(no, page, k)| == Ones(page.occupied[..k])
  {
    hide *;
    if k > 0 {
      FoundCount(no, page, k - 1);
      FoundStep(no, page, k);
      OnesStep(page.occupied, k);
    } else {
      NoneFound(no, page);
    }
  }

  lemma NoneFound(no: int, page: DataPage)
    requires |page.occupied| <= |page.records|
    ensures |FoundBelow(no, page, 0)| == 0 == Ones(page.occupied[..0])
  {
  }

  /** A page appears to hold nothing exactly when no bit is set. */
  lemma FoundNothing(no: int, page: DataPage)
    requires |page.occupied| == |page.records|
    ensures Blank(page) <==> FoundOn(no, page) == map[]
    ensures Blank(page) <==> Ones(page.occupied) == 0
  {
    hide Ones;
    FoundCount(no, page, |page.occupied|);
    assert page.occupied[..|page.occupied|] == page.occupied;
    if !Blank(page) {
      var s :| 0 <= s < |page.occupied| && page.occupied[s];
      assert RecordID(no, s) in FoundOn(no, page);
    }
  }

  lemma GrownRows(dataPages: seq<int>, pages: Pages, n: nat, rows: Rows, no: int, page: DataPage)
    requires Shaped(dataPages, pages, n) && RowsAre(dataPages, pages, n, rows) && no !in dataPages
    requires 0 <= no <= 0x7fff_ffff
    requires |page.occupied| == n == |page.records|
    ensures Shaped(dataPages + [no], pages[no := page], n)
    ensures RowsAre(dataPages + [no], pages[no := page], n, rows + FoundOn(no, page))
  {
  }

  lemma GrownNoted(dataPages: seq<int>, pages: Pages, n: nat, delta: map<int, int>, atOpen: map<int, nat>, no: int,
      page: DataPage)
    requires Shaped(dataPages, pages, n) && Noted(dataPages, pages, n, delta, atOpen)
    requires no !in dataPages && no !in delta && 0 <= no <= 0x7fff_ffff && |page.occupied| == n == |page.records|
    ensures Shaped(dataPages + [no], pages[no := page], n)
    ensures Noted(dataPages + [no], pages[no := page], n, delta, atOpen[no := Ones(page.occupied)])
  {
    hide Ones;
  }

  lemma GrownListed(pageIndex: seq<PageCount>, dataPages: seq<int>, no: int)
    requires Listed(pageIndex, dataPages) && no !in dataPages
    ensures Listed(pageIndex + [PageCount(no, 0)], dataPages + [no])
  {
  }

  // -- sums over pages ---------------------------------------------------------------------------------------

  ghost function SumOver(s: set<int>, f: int -> int): int
  {
    if s == {} then 0 else f(Any(s)) + SumOver(s - {Any(s)}, f)
  }

  /** An element of a nonempty set. */
  ghost function Any(s: set<int>): (x: int)
    requires s != {}
    ensures x in s
  {
    assert (forall x :: x !in s) ==> s == {};
    var x :| x in s;
    x
  }

  lemma SumNone(f: int -> int)
    ensures SumOver({}, f) == 0
  {
  }

  /** Any element may be taken first. */
  lemma {:induction false} SumTake(s: set<int>, f: int -> int, x: int)
    requires x in s
    ensures SumOver(s, f) == f(x) + SumOver(s - {x}, f)
    decreases |s|
  {
    var y := Any(s);
    if y != x {
      SumTake(s - {y}, f, x);
      SumTake(s - {x}, f, y);
      assert s - {y} - {x} == s - {x} - {y};
    }
  }

  lemma {:induction false} SumChanged(s: set<int>, f: int -> int, g: int -> int, x: int)
    requires forall y :: y in s && y != x ==> f(y) == g(y)
    ensures SumOver(s, g) == SumOver(s, f) + if x in s then g(x) - f(x) else 0
    decreases |s|
  {
    if s != {} {
      var y := if x in s then x else Any(s);
      SumTake(s, f, y);
      SumTake(s, g, y);
      SumChanged(s - {y}, f, g, x);
    }
  }

  lemma {:induction false} SumAdds(s: set<int>, f: int -> int, g: int -> int, h: int -> int)
    requires forall y :: y in s ==> h(y) == f(y) + g(y)
    ensures SumOver(s, h) == SumOver(s, f) + SumOver(s, g)
    decreases |s|
  {
    if s != {} {
      var y := Any(s);
      SumTake(s, f, y);
      SumTake(s, g, y);
      SumTake(s, h, y);
      SumAdds(s - {y}, f, g, h);
    }
  }

  ghost function Elements(s: seq<int>): set<int>
  {
    set x | x in s
  }

  /** How many slots of a page are occupied. */
  ghost function Counted(pages: Pages, no: int): nat
  {
    if no in pages then Ones(pages[no].occupied) else 0
  }

  ghost function Filled(pages: Pages): int -> int
  {
    no => Counted(pages, no)
  }

  ghost function Changes(delta: map<int, int>): int -> int
  {
    no => Change(delta, no)
  }

  ghost function Before(atOpen: map<int, nat>): int -> int
  {
    no => if no in atOpen then atOpen[no] else 0
  }

  /** There are as many records as occupied slots. */
  ghost predicate AllCounted(dataPages: seq<int>, pages: Pages, rows: Rows)
  {
    |rows| == SumOver(Elements(dataPages), Filled(pages))
  }

  lemma StoredFills(pages: Pages, id: RecordID, rec: Record)
    requires id.pageNo in pages
    requires 0 <= id.slot < |pages[id.pageNo].occupied| && id.slot < |pages[id.pageNo].records|
    ensures forall no :: no != id.pageNo ==> Filled(Stored(pages, id, rec))(no) == Filled(pages)(no)
    ensures Filled(Stored(pages, id, rec))(id.pageNo)
         == Filled(pages)(id.pageNo) + if pages[id.pageNo].occupied[id.slot] then 0 else 1
  {
    hide Ones;
    OnesUpdate(pages[id.pageNo].occupied, id.slot, true);
  }

  lemma ClearedFills(pages: Pages, id: RecordID)
    requires id.pageNo in pages && 0 <= id.slot < |pages[id.pageNo].occupied|
    ensures forall no :: no != id.pageNo ==> Filled(Cleared(pages, id))(no) == Filled(pages)(no)
    ensures Filled(Cleared(pages, id))(id.pageNo)
         == Filled(pages)(id.pageNo) - if pages[id.pageNo].occupied[id.slot] then 1 else 0
  {
    hide Ones;
    OnesUpdate(pages[id.pageNo].occupied, id.slot, false);
  }

  lemma RowCount(rows: Rows, id: RecordID, rec: Record)
    ensures |rows[id := rec]| == |rows| + if id in rows then 0 else 1
    ensures id in rows ==> |rows - {id}| == |rows| - 1
  {
    assert (rows[id := rec]).Keys == rows.Keys + {id};
    if id in rows { assert rows.Keys == (rows - {id}).Keys + {id}; }
  }

  lemma SlotShape(dataPages: seq<int>, pages: Pages, n: nat, no: int)
    requires Shaped(dataPages, pages, n) && no in dataPages
    ensures no in pages && |pages[no].occupied| == n == |pages[no].records| && 0 <= no <= 0x7fff_ffff
  {
  }

  lemma OccupiedIsRow(dataPages: seq<int>, pages: Pages, n: nat, rows: Rows, id: RecordID)
    requires Shaped(dataPages, pages, n) && RowsAre(dataPages, pages, n, rows) && id.pageNo in dataPages
    requires 0 <= id.slot < n
    ensures id in rows <==> pages[id.pageNo].occupied[id.slot]
  {
  }

  lemma StoredCounted(dataPages: seq<int>, pages: Pages, n: nat, rows: Rows, id: RecordID, rec: Record)
    requires Shaped(dataPages, pages, n) && RowsAre(dataPages, pages, n, rows) && AllCounted(dataPages, pages, rows)
    requires id.pageNo in dataPages && 0 <= id.slot < n
    ensures AllCounted(dataPages, Stored(pages, id, rec), rows[id := rec])
  {
    hide SumOver, Ones, Distinct, RowsAre, Filled, Stored;
    StoredFills(pages, id, rec);
    SumChanged(Elements(dataPages), Filled(pages), Filled(Stored(pages, id, rec)), id.pageNo);
    RowCount(rows, id, rec);
    OccupiedIsRow(dataPages, pages, n, rows, id);
  }

  lemma ClearedCounted(dataPages: seq<int>, pages: Pages, n: nat, rows: Rows, id: RecordID)
    requires Shaped(dataPages, pages, n) && RowsAre(dataPages, pages, n, rows) && AllCounted(dataPages, pages, rows)
    requires id in rows && id.pageNo in dataPages && 0 <= id.slot < n
    ensures AllCounted(dataPages, Cleared(pages, id), rows - {id})
  {
    hide SumOver, Ones, Distinct, RowsAre, Filled, Cleared;
    ClearedFills(pages, id);
    SumChanged(Elements(dataPages), Filled(pages), Filled(Cleared(pages, id)), id.pageNo);
    RowCount(rows, id, rows[id]);
    OccupiedIsRow(dataPages, pages, n, rows, id);
  }

  lemma GrownCounted(dataPages: seq<int>, pages: Pages, n: nat, rows: Rows, no: int, page: DataPage)
    requires Shaped(dataPages, pages, n) && RowsAre(dataPages, pages, n, rows) && AllCounted(dataPages, pages, rows)
    requires no !in dataPages && |page.occupied| == |page.records|
    ensures AllCounted(dataPages + [no], pages[no := page], rows + FoundOn(no, page))
  {
    hide SumOver, Ones, Distinct;
    var after, found := pages[no := page], FoundOn(no, page);
    FoundCount(no, page, |page.occupied|);
    assert page.occupied[..|page.occupied|] == page.occupied;
    SumTake(Elements(dataPages + [no]), Filled(after), no);
    assert Elements(dataPages + [no]) - {no} == Elements(dataPages);
    SumChanged(Elements(dataPages), Filled(pages), Filled(after), no);
    RowsApart(rows, found);
  }

  lemma RowsApart(a: Rows, b: Rows)
    requires forall id :: id in a ==> id !in b
    ensures |a + b| == |a| + |b|
  {
    assert (a + b).Keys == a.Keys + b.Keys;
  }

  /** There are always as many records as set bits. */
  lemma {:induction false} CountRows(dataPages: seq<int>, pages: Pages, n: nat, rows: Rows)
    requires Shaped(dataPages, pages, n) && RowsAre(dataPages, pages, n, rows)
    ensures AllCounted(dataPages, pages, rows)
    decreases |dataPages|
  {
    hide SumOver, Ones;
    if dataPages == [] {
      assert rows == map[];
      assert Elements(dataPages) == {};
      SumNone(Filled(pages));
    } else {
      var init, last := dataPages[..|dataPages| - 1], dataPages[|dataPages| - 1];
      var fewer := map id | id in rows && id.pageNo != last :: rows[id];
      assert dataPages == init + [last];
      InitRows(init, last, pages, n, rows, fewer);
      CountRows(init, pages, n, fewer);
      GrownCounted(init, pages, n, fewer, last, pages[last]);
      assert pages[last := pages[last]] == pages;
    }
  }

  lemma InitRows(init: seq<int>, last: int, pages: Pages, n: nat, rows: Rows, fewer: Rows)
    requires Shaped(init + [last], pages, n) && RowsAre(init + [last], pages, n, rows)
    requires fewer == map id | id in rows && id.pageNo != last :: rows[id]
    ensures last !in init && last in pages && |pages[last].occupied| == |pages[last].records|
    ensures Shaped(init, pages, n) && RowsAre(init, pages, n, fewer) && fewer + FoundOn(last, pages[last]) == rows
  {
    hide FoundOn;
    InitShape(init, last, pages, n);
    forall id | id in rows
      ensures id.pageNo == last ==> id in FoundOn(last, pages[last])
    {
    }
    assert fewer + FoundOn(last, pages[last]) == rows;
  }

  lemma InitShape(init: seq<int>, last: int, pages: Pages, n: nat)
    requires Shaped(init + [last], pages, n)
    ensures last !in init && last in pages && |pages[last].occupied| == n == |pages[last].records|
    ensures Shaped(init, pages, n)
    ensures forall no :: no in init + [last] <==> no in init || no == last
  {
    var dataPages := init + [last];
    assert dataPages[|init|] == last && forall i :: 0 <= i < |init| ==> dataPages[i] == init[i];
    assert forall no :: no in init ==> no in dataPages && no != last;
  }

  function SumCounts(index: seq<PageCount>): int
  {
    if index == [] then 0 else SumCounts(index[..|index| - 1]) + index[|index| - 1].count
  }

  ghost function IndexedPages(index: seq<PageCount>): set<int>
  {
    set i | 0 <= i < |index| :: index[i].pageNo
  }

  /** The sum of the index's counts is that over its pages, in whatever order they come. */
  lemma {:induction false} CountSum(index: seq<PageCount>, f: int -> int)
    requires forall i, j :: 0 <= i < j < |index| ==> index[i].pageNo != index[j].pageNo
    requires forall i :: 0 <= i < |index| ==> index[i].count == f(index[i].pageNo)
    ensures SumCounts(index) == SumOver(IndexedPages(index), f)
  {
    if index != [] {
      var init, last := index[..|index| - 1], index[|index| - 1];
      CountSum(init, f);
      SumTake(IndexedPages(index), f, last.pageNo);
      InitPages(index);
    } else {
      assert IndexedPages(index) == {};
    }
  }

  lemma InitPages(index: seq<PageCount>)
    requires index != []
    requires forall i, j :: 0 <= i < j < |index| ==> index[i].pageNo != index[j].pageNo
    ensures index[|index| - 1].pageNo in IndexedPages(index)
    ensures IndexedPages(index) - {index[|index| - 1].pageNo} == IndexedPages(index[..|index| - 1])
  {
    var init, last := index[..|index| - 1], index[|index| - 1];
    forall x | x in IndexedPages(index) && x != last.pageNo
      ensures x in IndexedPages(init)
    {
      var i :| 0 <= i < |index| && index[i].pageNo == x;
      assert init[i].pageNo == x;
    }
    forall x | x in IndexedPages(init)
      ensures x in IndexedPages(index) && x != last.pageNo
    {
      var i :| 0 <= i < |init| && init[i].pageNo == x;
      assert index[i].pageNo == x;
    }
  }

  lemma {:induction false} SumSubset(s: set<int>, t: set<int>, f: int -> int)
    requires s <= t && forall x :: x in t && x !in s ==> f(x) == 0
    ensures SumOver(s, f) == SumOver(t, f)
    decreases |t|
  {
    if t != {} {
      var x := Any(t);
      SumTake(t, f, x);
      if x in s { SumTake(s, f, x); } else { assert s - {x} == s; }
      SumSubset(s - {x}, t - {x}, f);
    }
  }

  /** The index's counts are what the pages held when the writer was opened. */
  ghost predicate CountsTrue(index: seq<PageCount>, atOpen: map<int, nat>)
  {
    forall i :: 0 <= i < |index| ==> CountTrue(index[i], atOpen)
  }

  ghost predicate CountTrue(entry: PageCount, atOpen: map<int, nat>)
  {
    entry.pageNo in atOpen && entry.count == atOpen[entry.pageNo]
  }

  lemma {:induction false} ListedSet(index: seq<PageCount>, dataPages: seq<int>)
    requires Listed(index, dataPages) && Distinct(dataPages)
    ensures IndexedPages(index) == Elements(dataPages)
  {
    IndexedSize(index);
    ElementsSize(dataPages);
    SameSize(IndexedPages(index), Elements(dataPages));
  }

  lemma SameSize(s: set<int>, t: set<int>)
    requires s <= t && |s| == |t|
    ensures s == t
  {
    assert t == s + (t - s);
  }

  lemma {:induction false} IndexedSize(index: seq<PageCount>)
    requires forall i, j :: 0 <= i < j < |index| ==> index[i].pageNo != index[j].pageNo
    ensures |IndexedPages(index)| == |index|
  {
    if index != [] {
      IndexedSize(index[..|index| - 1]);
      InitPages(index);
    } else {
      assert IndexedPages(index) == {};
    }
  }

  lemma {:induction false} ElementsSize(s: seq<int>)
    requires Distinct(s)
    ensures |Elements(s)| == |s|
  {
    if s != [] {
      var init := s[..|s| - 1];
      ElementsSize(init);
      assert s == init + [s[|s| - 1]];
      assert Elements(s) == Elements(init) + {s[|s| - 1]};
    }
  }

  /** A table whose index was right has as many records as the index counted, and the changes noted since. */
  lemma RecordsSince(dataPages: seq<int>, pages: Pages, n: nat, rows: Rows, index: seq<PageCount>, delta: map<int, int>,
      atOpen: map<int, nat>)
    requires Shaped(dataPages, pages, n) && AllCounted(dataPages, pages, rows) && Listed(index, dataPages)
    requires Noted(dataPages, pages, n, delta, atOpen) && CountsTrue(index, atOpen)
    requires forall no :: no in delta ==> no in dataPages
    ensures |rows| == SumCounts(index) + SumOver(delta.Keys, Changes(delta))
  {
    hide SumOver, Ones, SumCounts, Distinct;
    var all := Elements(dataPages);
    NotedSums(dataPages, pages, n, delta, atOpen);
    forall no | no in delta.Keys ensures no in all { assert no in delta; }
    SumSubset(delta.Keys, all, Changes(delta));
    ListedSet(index, dataPages);
    CountSum(index, Before(atOpen));
  }

  lemma NotedSums(dataPages: seq<int>, pages: Pages, n: nat, delta: map<int, int>, atOpen: map<int, nat>)
    requires Shaped(dataPages, pages, n) && Noted(dataPages, pages, n, delta, atOpen)
    ensures SumOver(Elements(dataPages), Filled(pages))
         == SumOver(Elements(dataPages), Before(atOpen)) + SumOver(Elements(dataPages), Changes(delta))
  {
    hide SumOver, Ones, Distinct;
    SumAdds(Elements(dataPages), Before(atOpen), Changes(delta), Filled(pages));
  }

  /** When every count of the index is that of its page, their sum is the number of records. */
  lemma RecordsNow(dataPages: seq<int>, pages: Pages, n: nat, rows: Rows, index: seq<PageCount>)
    requires Shaped(dataPages, pages, n) && AllCounted(dataPages, pages, rows) && Listed(index, dataPages)
    requires forall i :: 0 <= i < |index| ==> index[i].count == Filled(pages)(index[i].pageNo)
    ensures SumCounts(index) == |rows|
  {
    hide SumOver, SumCounts, Filled, Distinct;
    ListedSet(index, dataPages);
    CountSum(index, Filled(pages));
  }
}
