/** Data pages as bytes, and rewriting them when a column is added or dropped. */
module RowPages {
  import opened AllocationMaps
  import opened Bits
  import opened Inflate
  import opened LittleEndian
  import opened RowCodec

  // -- how many records a page holds ------------------------------------------------------------------------

  /** n records and their occupancy bits fit. */
  predicate Fit(n: nat, size: nat, payload: nat)
  {
    (n + 7) / 8 + n * size <= payload
  }

  lemma Times(m: nat, n: nat, size: nat)
    requires m <= n
    ensures m * size <= n * size
  {
  }

  lemma FitSmaller(n: nat, size: nat, less: nat, payload: nat)
    requires less <= size && Fit(n, size, payload)
    ensures Fit(n, less, payload)
  {
    TimesSmaller(n, less, size);
  }

  lemma TimesSmaller(n: nat, less: nat, size: nat)
    requires less <= size
    ensures n * less <= n * size
  {
  }

  lemma TooMany(n: nat, size: nat, payload: nat)
    requires size > 0 && n > payload / size
    ensures !Fit(n, size, payload)
  {
    var q := payload / size;
    assert payload < (q + 1) * size;
    Times(q + 1, n, size);
  }

  /** The most records a page holds. */
  ghost predicate Most(n: nat, size: nat, payload: nat)
  {
    Fit(n, size, payload) && forall m: nat :: m > n ==> !Fit(m, size, payload)
  }

  /** Counted down from the records that would fit without a bitmap. */
  method RecordsPerPage(payload: nat, size: nat) returns (n: nat)
    ensures size == 0 || payload == 0 ==> n == 0
    ensures size > 0 && payload > 0 ==> Most(n, size, payload)
  {
    hide Fit;
    if size == 0 || payload == 0 { return 0; }
    n := payload / size;
    forall m: nat | m > n ensures !Fit(m, size, payload) { TooMany(m, size, payload); }
    FitIs(n, size, payload);
    while n > 0 && (n + 7) / 8 + n * size > payload
      invariant forall m: nat :: m > n ==> !Fit(m, size, payload)
      invariant Fit(n, size, payload) <==> (n + 7) / 8 + n * size <= payload
    {
      n := n - 1;
      FitIs(n, size, payload);
    }
  }

  lemma FitIs(n: nat, size: nat, payload: nat)
    ensures Fit(n, size, payload) <==> (n + 7) / 8 + n * size <= payload
  {
  }

  /** Smaller records never fit in smaller numbers. */
  lemma SmallerRecordsFit(n: nat, size: nat, m: nat, less: nat, payload: nat)
    requires Most(n, size, payload) && Most(m, less, payload) && less <= size
    ensures n <= m
  {
    hide Fit;
    FitSmaller(n, size, less, payload);
  }

  // -- the slots of a page ----------------------------------------------------------------------------------

  /** A page of `count` records. */
  datatype Layout = Layout(ks: seq<Kind>, count: nat)
  {
    function Bitmap(): nat { (count + 7) / 8 }

    function Size(): nat { RecordSize(ks) }

    function Start(slot: nat): nat { Bitmap() + slot * Size() }

    predicate Within(payload: nat) { Fit(count, Size(), payload) }
  }

  lemma SlotInside(l: Layout, slot: nat, payload: nat)
    requires l.Within(payload) && slot < l.count
    ensures l.Start(slot) + l.Size() <= payload && slot / 8 < l.Bitmap() <= payload
  {
    Times(slot + 1, l.count, l.Size());
    assert (slot + 1) * l.Size() == slot * l.Size() + l.Size();
  }

  predicate Occupied(l: Layout, page: Raw, slot: nat)
  {
    slot < l.count && PfsAllocated(page, slot)
  }

  function RecordAt(l: Layout, page: Raw, slot: nat): (rec: Raw)
    requires l.Within(|page|) && slot < l.count
    ensures |rec| == l.Size()
  {
    SlotInside(l, slot, |page|);
    page[l.Start(slot)..l.Start(slot) + l.Size()]
  }

  function RowAt(l: Layout, page: Raw, slot: nat): (row: Row)
    requires l.Within(|page|) && slot < l.count
    ensures |row| == |l.ks|
  {
    DecodeRow(l.ks, RecordAt(l, page, slot))
  }

  // -- writing one slot -------------------------------------------------------------------------------------

  /** A record stored in a slot, and its occupancy bit set. */
  function Stored(l: Layout, page: Raw, slot: nat, rec: Raw): (r: Raw)
    requires l.Within(|page|) && slot < l.count && |rec| == l.Size()
    ensures |r| == |page|
  {
    SlotInside(l, slot, |page|);
    PfsSet(Patched(page, l.Start(slot), rec), slot)
  }

  lemma SlotsApart(l: Layout, i: nat, j: nat)
    requires i != j
    ensures l.Start(i) + l.Size() <= l.Start(j) || l.Start(j) + l.Size() <= l.Start(i)
  {
    hide RecordSize;
    var size := l.Size();
    if i < j {
      Times(i + 1, j, size);
      assert (i + 1) * size == i * size + size;
    } else {
      Times(j + 1, i, size);
      assert (j + 1) * size == j * size + size;
    }
  }

  lemma StoredSlots(l: Layout, page: Raw, slot: nat, rec: Raw)
    requires l.Within(|page|) && slot < l.count && |rec| == l.Size()
    ensures var r := Stored(l, page, slot, rec);
      && RecordAt(l, r, slot) == rec
      && (forall j :: 0 <= j < l.count && j != slot ==> RecordAt(l, r, j) == RecordAt(l, page, j))
      && forall j :: 0 <= j < l.count ==> (Occupied(l, r, j) <==> j == slot || Occupied(l, page, j))
  {
    hide Fit, RecordSize, PfsAllocated, Patched;
    SlotInside(l, slot, |page|);
    var p := Patched(page, l.Start(slot), rec);
    var r := Stored(l, page, slot, rec);
    forall j | 0 <= j < l.count
      ensures RecordAt(l, r, j) == if j == slot then rec else RecordAt(l, page, j)
      ensures Occupied(l, r, j) <==> j == slot || Occupied(l, page, j)
    {
      BitmapSlice(l, p, slot, j);
      RecordSlice(l, page, slot, rec, j);
      BitmapKept(l, page, slot, rec, j);
    }
  }

  /** The occupancy bit lies before every record. */
  lemma BitmapSlice(l: Layout, page: Raw, slot: nat, j: nat)
    requires l.Within(|page|) && slot < l.count && j < l.count && slot / 8 < |page|
    ensures RecordAt(l, PfsSet(page, slot), j) == RecordAt(l, page, j)
  {
    hide Fit, RecordSize, PfsAllocated, BitMask;
    SlotInside(l, slot, |page|);
    SlotInside(l, j, |page|);
  }

  lemma RecordSlice(l: Layout, page: Raw, slot: nat, rec: Raw, j: nat)
    requires l.Within(|page|) && slot < l.count && j < l.count && |rec| == l.Size()
    ensures l.Start(slot) + |rec| <= |page|
    ensures RecordAt(l, Patched(page, l.Start(slot), rec), j) == if j == slot then rec else RecordAt(l, page, j)
  {
    hide Fit, RecordSize, Patched, Layout.Start;
    SlotInside(l, slot, |page|);
    SlotInside(l, j, |page|);
    if j != slot { SlotsApart(l, slot, j); }
  }

  lemma BitmapKept(l: Layout, page: Raw, slot: nat, rec: Raw, j: nat)
    requires l.Within(|page|) && slot < l.count && j < l.count && |rec| == l.Size()
    ensures l.Start(slot) + |rec| <= |page|
    ensures PfsAllocated(Patched(page, l.Start(slot), rec), j) <==> PfsAllocated(page, j)
  {
    hide Fit, RecordSize, Patched, PfsAllocated;
    SlotInside(l, slot, |page|);
    SlotInside(l, j, |page|);
    SameFlag(page, Patched(page, l.Start(slot), rec), j);
  }

  // -- rewriting a page -------------------------------------------------------------------------------------

  /** The record in a slot finds its slot under the new layout, and its changed row fits. */
  predicate CanMove(page: Raw, from: Layout, to: Layout, change: Row -> Row, slot: nat)
    requires from.Within(|page|) && slot < from.count
  {
    Occupied(from, page, slot) ==> slot < to.count && RowFits(to.ks, change(RowAt(from, page, slot)))
  }

  predicate Rewritable(page: Raw, from: Layout, to: Layout, change: Row -> Row)
    requires from.Within(|page|)
  {
    forall s :: 0 <= s < from.count ==> CanMove(page, from, to, change, s)
  }

  /** The first n slots are occupied as they were, and hold the changed rows. */
  ghost predicate Moved(page: Raw, r: Raw, from: Layout, to: Layout, change: Row -> Row, n: nat)
    requires from.Within(|page|) && to.Within(|page|)
  {
    && |r| == |page|
    && (forall s :: 0 <= s < to.count ==> (Occupied(to, r, s) <==> s < n && Occupied(from, page, s)))
    && forall s :: 0 <= s < n && Occupied(from, page, s) ==> Holds(page, r, from, to, change, s)
  }

  /** A slot holds the record of its changed row. */
  ghost predicate Holds(page: Raw, r: Raw, from: Layout, to: Layout, change: Row -> Row, s: nat)
    requires from.Within(|page|) && to.Within(|r|) && s < from.count
  {
    s < to.count && Records(to.ks, change(RowAt(from, page, s)), RecordAt(to, r, s))
  }

  /** Every record is decoded under the old layout, changed, and encoded under the new one into the same slot of a
      fresh page. */
  method RewriteDataPage(page: Raw, from: Layout, to: Layout, change: Row -> Row) returns (ok: bool, r: Raw)
    requires from.Within(|page|) && to.Within(|page|)
    ensures ok <==> Rewritable(page, from, to, change)
    ensures ok ==> Moved(page, r, from, to, change, from.count)
  {
    hide Fit, PfsAllocated, RecordAt, RowAt, RowFits, Records, Stored, Moved;
    r := ZeroBytes(|page|);
    NothingMoved(page, from, to, change);
    var slot := 0;
    while slot < from.count
      invariant 0 <= slot <= from.count && |r| == |page| && Moved(page, r, from, to, change, slot)
      invariant forall s :: 0 <= s < slot ==> CanMove(page, from, to, change, s)
    {
      if Occupied(from, page, slot) {
        var row := change(RowAt(from, page, slot));
        var fits, rec := EncodeRecord(to.ks, row);
        if !fits || slot >= to.count {
          assert !CanMove(page, from, to, change, slot);
          return false, r;
        }
        RecordsSize(to.ks, row, rec);
        OneMoved(page, r, from, to, change, slot, rec);
        r := Stored(to, r, slot, rec);
      } else {
        NoneMoved(page, r, from, to, change, slot);
      }
      slot := slot + 1;
    }
    ok := true;
  }

  lemma RecordsSize(ks: seq<Kind>, row: Row, rec: Raw)
    requires Records(ks, row, rec)
    ensures |rec| == RecordSize(ks)
  {
  }

  lemma NothingMoved(page: Raw, from: Layout, to: Layout, change: Row -> Row)
    requires from.Within(|page|) && to.Within(|page|)
    ensures Moved(page, ZeroBytes(|page|), from, to, change, 0)
  {
    hide Fit, PfsAllocated, RecordAt, RowAt, RowFits, Records;
    forall s | 0 <= s < to.count ensures !Occupied(to, ZeroBytes(|page|), s) { ZeroFlag(|page|, s); }
  }

  lemma NoneMoved(page: Raw, r: Raw, from: Layout, to: Layout, change: Row -> Row, n: nat)
    requires from.Within(|page|) && to.Within(|page|) && Moved(page, r, from, to, change, n)
    requires n < from.count && !Occupied(from, page, n)
    ensures Moved(page, r, from, to, change, n + 1)
  {
    hide Fit, PfsAllocated, Holds;
  }

  lemma OneMoved(page: Raw, r: Raw, from: Layout, to: Layout, change: Row -> Row, n: nat, rec: Raw)
    requires from.Within(|page|) && to.Within(|page|) && Moved(page, r, from, to, change, n)
    requires n < from.count && n < to.count && Occupied(from, page, n)
    requires Records(to.ks, change(RowAt(from, page, n)), rec)
    ensures |rec| == to.Size() && |r| == |page| && Moved(page, Stored(to, r, n, rec), from, to, change, n + 1)
  {
    hide Fit, PfsAllocated, RecordAt, RowAt, Stored, Records;
    RecordsSize(to.ks, change(RowAt(from, page, n)), rec);
    StoredSlots(to, r, n, rec);
  }

  // -- adding and dropping a column -------------------------------------------------------------------------

  /** ADD COLUMN: every row gains a NULL. */
  function WithNull(row: Row): Row
  {
    row + [None]
  }

  /** DROP COLUMN: every row loses a value. */
  function WithoutColumn(i: nat): Row -> Row
  {
    (row: Row) => if i < |row| then Without(row, i) else row
  }

  /** A value on file can be written again: it is NULL, or no bytes, and its text, if it is text, ends with a NUL. */
  predicate CanStay(ks: seq<Kind>, rec: Raw, i: nat)
    requires |rec| == RecordSize(ks) && i < |ks|
  {
    PfsAllocated(rec, i) || (!ks[i].Binary? && (ks[i].Text? ==> 0 in FieldOf(ks, rec, i)))
  }

  lemma StaysEncodes(ks: seq<Kind>, rec: Raw, i: nat)
    requires |rec| == RecordSize(ks) && i < |ks|
    ensures Encodes(ks[i], ValueOf(ks, rec, i)) <==> CanStay(ks, rec, i)
  {
    hide PfsAllocated, FieldOf, RecordSize;
    DecodeThenEncode(ks[i], FieldOf(ks, rec, i));
  }

  /** A record can take another column exactly when all its values can be written again. */
  lemma AddFits(ks: seq<Kind>, k: Kind, rec: Raw)
    requires |rec| == RecordSize(ks)
    ensures RowFits(ks + [k], WithNull(DecodeRow(ks, rec))) <==> forall i :: 0 <= i < |ks| ==> CanStay(ks, rec, i)
  {
    hide PfsAllocated, FieldOf, RecordSize, Encodes, CanStay;
    var row := WithNull(DecodeRow(ks, rec));
    forall i | 0 <= i < |ks|
      ensures Encodes((ks + [k])[i], row[i]) <==> CanStay(ks, rec, i)
    {
      StaysEncodes(ks, rec, i);
    }
    assert Encodes(k, None) by { NullEncodes(k); }
    assert (ks + [k])[|ks|] == k && row[|ks|] == None;
  }

  lemma NullEncodes(k: Kind)
    ensures Encodes(k, None)
  {
  }

  /** A record can lose a column exactly when all its other values can be written again. */
  lemma DropFits(ks: seq<Kind>, c: nat, rec: Raw)
    requires |rec| == RecordSize(ks) && c < |ks|
    ensures RowFits(Without(ks, c), WithoutColumn(c)(DecodeRow(ks, rec)))
       <==> forall i :: 0 <= i < |ks| && i != c ==> CanStay(ks, rec, i)
  {
    hide PfsAllocated, FieldOf, RecordSize, Encodes, CanStay;
    var row := DecodeRow(ks, rec);
    var rest := Without(row, c);
    forall i | 0 <= i < |ks|
      ensures Encodes(ks[i], row[i]) <==> CanStay(ks, rec, i)
    {
      StaysEncodes(ks, rec, i);
    }
    forall j | 0 <= j < |ks| - 1
      ensures var i := if j < c then j else j + 1;
        Without(ks, c)[j] == ks[i] && rest[j] == row[i]
    {
      WithoutAt(ks, c, j);
      WithoutAt(row, c, j);
    }
    if RowFits(Without(ks, c), rest) {
      forall i | 0 <= i < |ks| && i != c
        ensures Encodes(ks[i], row[i])
      {
        var j := if i < c then i else i - 1;
        assert Encodes(Without(ks, c)[j], rest[j]);
      }
    }
  }

  /** Every value of the row but column `except` can be written again. */
  predicate RowStays(ks: seq<Kind>, rec: Raw, except: int)
    requires |rec| == RecordSize(ks)
  {
    forall i :: 0 <= i < |ks| && i != except ==> CanStay(ks, rec, i)
  }

  /** ADD COLUMN is carried out on a page exactly when its last occupied slot is still one of the page's and no row
      holds bytes, or text without a NUL. */
  lemma AddRewritable(page: Raw, from: Layout, to: Layout, k: Kind)
    requires from.Within(|page|) && to.ks == from.ks + [k]
    ensures Rewritable(page, from, to, WithNull) <==> forall s :: 0 <= s < from.count && Occupied(from, page, s) ==>
      s < to.count && RowStays(from.ks, RecordAt(from, page, s), -1)
  {
    hide Fit, PfsAllocated, RecordAt, RowFits, CanStay;
    forall s | 0 <= s < from.count
      ensures RowFits(to.ks, WithNull(RowAt(from, page, s))) <==> RowStays(from.ks, RecordAt(from, page, s), -1)
    {
      AddFits(from.ks, k, RecordAt(from, page, s));
    }
    assert forall s :: 0 <= s < from.count ==> (CanMove(page, from, to, WithNull, s) <==>
      (Occupied(from, page, s) ==> s < to.count && RowStays(from.ks, RecordAt(from, page, s), -1)));
  }

  lemma {:induction false} OffsetWithout(ks: seq<Kind>, c: nat, n: nat)
    requires c < n <= |ks|
    ensures Offset(Without(ks, c), n - 1) + ks[c].Store() == Offset(ks, n)
  {
    if n == c + 1 {
      SameOffset(ks, c, c);
    } else {
      OffsetWithout(ks, c, n - 1);
      WithoutAt(ks, c, n - 2);
    }
  }

  lemma {:induction false} SameOffset(ks: seq<Kind>, c: nat, n: nat)
    requires n <= c < |ks|
    ensures Offset(Without(ks, c), n) == Offset(ks, n)
  {
    if n > 0 {
      SameOffset(ks, c, n - 1);
      WithoutAt(ks, c, n - 1);
    }
  }

  lemma SmallerRecord(ks: seq<Kind>, c: nat)
    requires c < |ks|
    ensures RecordSize(Without(ks, c)) <= RecordSize(ks)
  {
    OffsetWithout(ks, c, |ks|);
  }

  /** Dropping a column never leaves a row without its slot: it is carried out on a page exactly when no row holds
      bytes, or text without a NUL, in another column. */
  lemma DropRewritable(page: Raw, from: Layout, to: Layout, c: nat)
    requires c < |from.ks| && to.ks == Without(from.ks, c)
    requires Most(from.count, from.Size(), |page|) && Most(to.count, to.Size(), |page|)
    ensures from.Within(|page|)
    ensures Rewritable(page, from, to, WithoutColumn(c)) <==>
      forall s :: 0 <= s < from.count && Occupied(from, page, s) ==> RowStays(from.ks, RecordAt(from, page, s), c)
  {
    hide Fit, PfsAllocated, RecordAt, RowFits, CanStay, RecordSize, WithoutColumn;
    SmallerRecord(from.ks, c);
    SmallerRecordsFit(from.count, from.Size(), to.count, to.Size(), |page|);
    forall s | 0 <= s < from.count
      ensures RowFits(to.ks, WithoutColumn(c)(RowAt(from, page, s))) <==> RowStays(from.ks, RecordAt(from, page, s), c)
    {
      DropFits(from.ks, c, RecordAt(from, page, s));
    }
    assert forall s :: 0 <= s < from.count ==> (CanMove(page, from, to, WithoutColumn(c), s) <==>
      (Occupied(from, page, s) ==> RowStays(from.ks, RecordAt(from, page, s), c)));
  }

  /** A value that can be written again comes back as it is. */
  lemma StaysReturned(ks: seq<Kind>, rec: Raw, i: nat)
    requires |rec| == RecordSize(ks) && i < |ks| && CanStay(ks, rec, i)
    ensures Encodes(ks[i], ValueOf(ks, rec, i)) && Returned(ks[i], ValueOf(ks, rec, i)) == ValueOf(ks, rec, i)
  {
    hide PfsAllocated, FieldOf, RecordSize;
    StaysEncodes(ks, rec, i);
  }

  /** After ADD COLUMN the same slots are occupied, and every row is what it was with a NULL behind it. */
  lemma AddKeepsRows(page: Raw, r: Raw, from: Layout, to: Layout, k: Kind)
    requires from.Within(|page|) && to.Within(|page|) && to.ks == from.ks + [k]
    requires Rewritable(page, from, to, WithNull) && Moved(page, r, from, to, WithNull, from.count)
    ensures |r| == |page| && forall s :: 0 <= s < from.count && Occupied(from, page, s) ==>
      s < to.count && Occupied(to, r, s) && RowAt(to, r, s) == WithNull(RowAt(from, page, s))
    ensures forall s :: 0 <= s < to.count && Occupied(to, r, s) ==> s < from.count && Occupied(from, page, s)
  {
    hide Fit, PfsAllocated, RecordAt, RowFits, CanStay, Records, RowStays;
    AddRewritable(page, from, to, k);
    forall s | 0 <= s < from.count && Occupied(from, page, s)
      ensures s < to.count && Occupied(to, r, s) && RowAt(to, r, s) == WithNull(RowAt(from, page, s))
    {
      assert Holds(page, r, from, to, WithNull, s);
      RowAdded(from.ks, k, RecordAt(from, page, s), RecordAt(to, r, s));
    }
  }

  lemma RowAdded(ks: seq<Kind>, k: Kind, rec: Raw, moved: Raw)
    requires |rec| == RecordSize(ks) && RowStays(ks, rec, -1)
    requires Records(ks + [k], WithNull(DecodeRow(ks, rec)), moved)
    ensures DecodeRow(ks + [k], moved) == WithNull(DecodeRow(ks, rec))
  {
    hide PfsAllocated, FieldOf, RecordSize, CanStay, Encodes, Returned;
    RecordBack(ks + [k], WithNull(DecodeRow(ks, rec)), moved);
    forall i | 0 <= i < |ks| + 1
      ensures DecodeRow(ks + [k], moved)[i] == WithNull(DecodeRow(ks, rec))[i]
    {
      if i < |ks| { StaysReturned(ks, rec, i); } else { NullReturned(k); }
    }
  }

  lemma NullReturned(k: Kind)
    ensures Encodes(k, None) && Returned(k, None) == None
  {
  }

  /** After DROP COLUMN the same slots are occupied, and every row is what it was without the column. */
  lemma DropKeepsRows(page: Raw, r: Raw, from: Layout, to: Layout, c: nat)
    requires c < |from.ks| && to.ks == Without(from.ks, c)
    requires Most(from.count, from.Size(), |page|) && Most(to.count, to.Size(), |page|)
    requires from.Within(|page|) && Rewritable(page, from, to, WithoutColumn(c))
    requires Moved(page, r, from, to, WithoutColumn(c), from.count)
    ensures |r| == |page| && forall s :: 0 <= s < from.count && Occupied(from, page, s) ==>
      s < to.count && Occupied(to, r, s) && RowAt(to, r, s) == Without(RowAt(from, page, s), c)
    ensures forall s :: 0 <= s < to.count && Occupied(to, r, s) ==> s < from.count && Occupied(from, page, s)
  {
    hide Fit, Most, PfsAllocated, RecordAt, RowFits, CanStay, Records, RowStays, RecordSize;
    FullWithin(to, |page|);
    DropRewritable(page, from, to, c);
    forall s | 0 <= s < from.count && Occupied(from, page, s)
      ensures s < to.count && Occupied(to, r, s) && RowAt(to, r, s) == Without(RowAt(from, page, s), c)
    {
      assert Holds(page, r, from, to, WithoutColumn(c), s);
      RowDropped(from.ks, c, RecordAt(from, page, s), RecordAt(to, r, s));
    }
  }

  lemma RowDropped(ks: seq<Kind>, c: nat, rec: Raw, moved: Raw)
    requires |rec| == RecordSize(ks) && c < |ks| && RowStays(ks, rec, c)
    requires Records(Without(ks, c), WithoutColumn(c)(DecodeRow(ks, rec)), moved)
    ensures DecodeRow(Without(ks, c), moved) == Without(DecodeRow(ks, rec), c)
  {
    hide PfsAllocated, FieldOf, RecordSize, CanStay, Encodes, Returned;
    var row := DecodeRow(ks, rec);
    RecordBack(Without(ks, c), Without(row, c), moved);
    forall j | 0 <= j < |ks| - 1
      ensures DecodeRow(Without(ks, c), moved)[j] == Without(row, c)[j]
    {
      WithoutAt(ks, c, j);
      WithoutAt(row, c, j);
      StaysReturned(ks, rec, if j < c then j else j + 1);
    }
  }

  /** The same slots are occupied, by the same rows. */
  ghost predicate SameRows(l: Layout, a: Raw, b: Raw)
    requires l.Within(|a|) && |b| == |a|
  {
    forall s :: 0 <= s < l.count ==>
      (Occupied(l, b, s) <==> Occupied(l, a, s)) && (Occupied(l, a, s) ==> RowAt(l, b, s) == RowAt(l, a, s))
  }

  /** The layout of a page filled as far as it goes. */
  ghost predicate Full(l: Layout, payload: nat)
  {
    Most(l.count, l.Size(), payload)
  }

  lemma FullWithin(l: Layout, payload: nat)
    requires Full(l, payload)
    ensures l.Within(payload)
  {
  }

  /** A column added and dropped again: every row is back in its slot. */
  method AddThenDrop(page: Raw, from: Layout, to: Layout, k: Kind) returns (added: bool, dropped: bool, back: Raw)
    requires from.Within(|page|) && Full(from, |page|) && Full(to, |page|) && to.ks == from.ks + [k]
    ensures added <==> Rewritable(page, from, to, WithNull)
    ensures added ==> dropped && |back| == |page| && SameRows(from, page, back)
  {
    hide Fit, Most, PfsAllocated, RecordAt, RowAt, RowFits, Records, Moved, RecordSize, Rewritable, Occupied, SameRows,
      WithNull, WithoutColumn;
    FullWithin(to, |page|);
    var wide;
    dropped, back := false, [];
    added, wide := RewriteDataPage(page, from, to, WithNull);
    if !added { return; }
    Undoable(page, wide, from, to, k);
    dropped, back := RewriteDataPage(wide, to, from, WithoutColumn(|from.ks|));
    RowsBack(page, wide, back, from, to, k);
  }

  lemma Dropped(ks: seq<Kind>, k: Kind, row: Row)
    requires |row| == |ks|
    ensures Without(ks + [k], |ks|) == ks && Without(WithNull(row), |ks|) == row
  {
  }

  /** A page a column was added to takes its dropping. */
  lemma Undoable(page: Raw, wide: Raw, from: Layout, to: Layout, k: Kind)
    requires from.Within(|page|) && to.Within(|page|) && to.ks == from.ks + [k]
    requires Rewritable(page, from, to, WithNull) && Moved(page, wide, from, to, WithNull, from.count)
    ensures |wide| == |page| && Rewritable(wide, to, from, WithoutColumn(|from.ks|))
  {
    hide Fit, PfsAllocated, RecordAt, RowFits, CanStay, Records, RowStays, Encodes;
    AddKeepsRows(page, wide, from, to, k);
    AddRewritable(page, from, to, k);
    forall s | 0 <= s < to.count
      ensures CanMove(wide, to, from, WithoutColumn(|from.ks|), s)
    {
      if Occupied(to, wide, s) {
        Dropped(from.ks, k, RowAt(from, page, s));
        AddFits(from.ks, k, RecordAt(from, page, s));
        StaysFit(from.ks, RecordAt(from, page, s));
      }
    }
  }

  lemma StaysFit(ks: seq<Kind>, rec: Raw)
    requires |rec| == RecordSize(ks) && RowStays(ks, rec, -1)
    ensures RowFits(ks, DecodeRow(ks, rec))
  {
    hide PfsAllocated, FieldOf, RecordSize, CanStay, Encodes;
    forall i | 0 <= i < |ks| ensures Encodes(ks[i], DecodeRow(ks, rec)[i]) { StaysEncodes(ks, rec, i); }
  }

  lemma RowsBack(page: Raw, wide: Raw, back: Raw, from: Layout, to: Layout, k: Kind)
    requires from.Within(|page|) && Full(from, |page|) && Full(to, |page|) && to.ks == from.ks + [k]
    requires to.Within(|page|)
    requires Rewritable(page, from, to, WithNull) && Moved(page, wide, from, to, WithNull, from.count)
    requires |wide| == |page| && Rewritable(wide, to, from, WithoutColumn(|from.ks|))
    requires Moved(wide, back, to, from, WithoutColumn(|from.ks|), to.count)
    ensures |back| == |page| && SameRows(from, page, back)
  {
    hide Fit, Most, PfsAllocated, RecordAt, RowAt, RowFits, Records, Moved, RecordSize, Rewritable, WithNull;
    AddKeepsRows(page, wide, from, to, k);
    Dropped(from.ks, k, seq(|from.ks|, _ => None));
    DropKeepsRows(wide, back, to, from, |from.ks|);
    forall s | 0 <= s < from.count
      ensures Occupied(from, back, s) <==> Occupied(from, page, s)
      ensures Occupied(from, page, s) ==> RowAt(from, back, s) == RowAt(from, page, s)
    {
      Dropped(from.ks, k, RowAt(from, page, s));
    }
  }

  /** A page with one row that holds bytes: no column can be added to its table. */
  method BytesStuck() returns (added: bool)
    ensures !added
  {
    hide PfsAllocated, RecordAt, Stored, Records, RecordSize;
    var from, to := Layout([Binary(1)], 1), Layout([Binary(1), Logical], 1);
    var fits, rec := EncodeRecord(from.ks, [Some(Blob([7]))]);
    StuckSizes();
    RecordsSize(from.ks, [Some(Blob([7]))], rec);
    var page := Stored(from, ZeroBytes(16), 0, rec);
    StoredSlots(from, ZeroBytes(16), 0, rec);
    assert CanMove(page, from, to, WithNull, 0) ==> false by { BytesRefused(rec); }
    var r;
    added, r := RewriteDataPage(page, from, to, WithNull);
  }

  lemma StuckSizes()
    ensures RecordSize([Binary(1)]) == 3 && RecordSize([Binary(1), Logical]) == 5
  {
    assert Offset([Binary(1)], 1) == 2;
    assert Offset([Binary(1), Logical], 1) == 2;
    assert Offset([Binary(1), Logical], 2) == 4;
  }

  lemma BytesRefused(rec: Raw)
    requires Records([Binary(1)], [Some(Blob([7]))], rec)
    ensures |rec| == RecordSize([Binary(1)]) && !RowFits([Binary(1), Logical], WithNull(DecodeRow([Binary(1)], rec)))
  {
    hide PfsAllocated, FieldOf, RecordSize;
    RecordsSize([Binary(1)], [Some(Blob([7]))], rec);
    AddFits([Binary(1)], Logical, rec);
    assert [Binary(1)] + [Logical] == [Binary(1), Logical];
    assert !CanStay([Binary(1)], rec, 0);
  }
}
