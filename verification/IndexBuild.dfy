/** The leaf CREATE INDEX builds from the rows there are: one entry a row, sorted by key and stably, written to a page
    of its own. */
module IndexBuild {
  import opened Arith
  import opened Bits
  import opened LittleEndian
  import opened BTreeLookup
  import opened IndexLeaves
  import opened IndexedRows

  datatype BuildResult = Built | Duplicate | TooManyRows

  const NO_PAGE: nat := 0xFFFF_FFFF

  // -- entries in the order of the records ------------------------------------------------------------------

  /** The order in which the records are read: each once, at places an entry can hold. */
  ghost predicate Listing(ids: seq<RecordID>, rows: Rows)
  {
    && (forall id :: id in ids <==> id in rows)
    && (forall i, j :: 0 <= i < j < |ids| ==> ids[i] != ids[j])
    && forall i :: 0 <= i < |ids| ==> 0 <= ids[i].pageNo < 0x8000_0000 && 0 <= ids[i].slot < 65536
  }

  /** The entries sorted by key, ties left in their order: each goes behind everything not above it. */
  function StablySorted(es: seq<Entry>, cmp: (Key, Key) -> int): (r: seq<Entry>)
    ensures |r| == |es|
  {
    if es == [] then [] else Inserted(StablySorted(es[..|es| - 1], cmp), es[|es| - 1], cmp)
  }

  method SortStable(es: seq<Entry>, cmp: (Key, Key) -> int) returns (r: seq<Entry>)
    ensures r == StablySorted(es, cmp)
  {
    hide Inserted;
    r := [];
    var i := 0;
    while i < |es|
      invariant i <= |es| && r == StablySorted(es[..i], cmp)
    {
      assert es[..i + 1][..i] == es[..i];
      r := Inserted(r, es[i], cmp);
      i := i + 1;
    }
    assert es[..|es|] == es;
  }

  /** One entry for every record, as they are read. */
  ghost function Unsorted(ids: seq<RecordID>, rows: Rows, keyOf: Record -> Key): (es: seq<Entry>)
    requires forall i :: 0 <= i < |ids| ==> ids[i] in rows && ids[i].slot >= 0
    ensures |es| == |ids|
  {
    seq(|ids|, i requires 0 <= i < |ids| => EntryFor(keyOf(rows[ids[i]]), ids[i]))
  }

  ghost function Part(rows: Rows, ids: seq<RecordID>): Rows
    requires forall i :: 0 <= i < |ids| ==> ids[i] in rows
  {
    map id | id in ids :: rows[id]
  }

  /** The records are born in the order they are read in. */
  ghost function ReadOrder(ids: seq<RecordID>): Births
  {
    if ids == [] then map[] else ReadOrder(ids[..|ids| - 1])[ids[|ids| - 1] := |ids| - 1]
  }

  lemma EmptyKept(cmp: (Key, Key) -> int, keyOf: Record -> Key)
    ensures Kept([], map[], map[], 0, false, cmp, keyOf)
  {
  }

  /** The sorted entries agree with the records read so far, ties in the order of reading. */
  lemma {:induction false} BuiltKept(ids: seq<RecordID>, rows: Rows, cmp: (Key, Key) -> int, keyOf: Record -> Key)
    requires Preorder(cmp) && forall i :: 0 <= i < |ids| ==> ids[i] in rows && ids[i].slot >= 0
    requires forall i, j :: 0 <= i < j < |ids| ==> ids[i] != ids[j]
    ensures Kept(StablySorted(Unsorted(ids, rows, keyOf), cmp), Part(rows, ids), ReadOrder(ids), |ids|, false, cmp,
        keyOf)
  {
    hide Preorder, Inserted, Kept;
    if ids == [] {
      EmptyKept(cmp, keyOf);
      assert Part(rows, ids) == map[];
    } else {
      var init, id := ids[..|ids| - 1], ids[|ids| - 1];
      BuiltKept(init, rows, cmp, keyOf);
      assert Unsorted(ids, rows, keyOf)[..|ids| - 1] == Unsorted(init, rows, keyOf);
      assert id !in init;
      assert Part(rows, ids) == Part(rows, init)[id := rows[id]];
      RowAdded(StablySorted(Unsorted(init, rows, keyOf), cmp), Part(rows, init), ReadOrder(init), |init|, false, cmp,
        keyOf, id, rows[id]);
    }
  }

  // -- duplicates -----------------------------------------------------------------------------------------

  /** Two rows have tying keys. */
  ghost predicate RowsTie(rows: Rows, cmp: (Key, Key) -> int, keyOf: Record -> Key)
  {
    exists a, b :: a in rows && b in rows && a != b && cmp(keyOf(rows[a]), keyOf(rows[b])) == 0
  }

  /** Two entries of the leaf tie if and only if two rows do. */
  lemma TiesAreRows(es: seq<Entry>, rows: Rows, born: Births, clock: nat, cmp: (Key, Key) -> int, keyOf: Record -> Key)
    requires Preorder(cmp) && Kept(es, rows, born, clock, false, cmp, keyOf)
    ensures NoTies(es, cmp) <==> !RowsTie(rows, cmp, keyOf)
  {
    hide Preorder, At, Target, Sorted, TiesByBirth;
    if !NoTies(es, cmp) {
      var i, j :| 0 <= i < j < |es| && cmp(es[i].key, es[j].key) == 0;
      assert Target(es[i]) != Target(es[j]);
    }
    if RowsTie(rows, cmp, keyOf) {
      var a, b :| a in rows && b in rows && a != b && cmp(keyOf(rows[a]), keyOf(rows[b])) == 0;
      var i, j := At(es, a), At(es, b);
      assert es[i].key == keyOf(rows[a]) && es[j].key == keyOf(rows[b]);
      TotalOrder(cmp, es[i].key, es[j].key);
      if i < j { assert cmp(es[i].key, es[j].key) == 0; } else { assert cmp(es[j].key, es[i].key) == 0; }
    }
  }

  lemma NeighboursTie(es: seq<Entry>, cmp: (Key, Key) -> int, i: nat, j: nat)
    requires Preorder(cmp) && Sorted(es, cmp) && i < j < |es| && cmp(es[i].key, es[j].key) == 0
    ensures cmp(es[i].key, es[i + 1].key) == 0
  {
    if i + 1 < j {
      TotalOrder(cmp, es[i].key, es[j].key);
      assert cmp(es[i + 1].key, es[j].key) <= 0 && cmp(es[j].key, es[i].key) <= 0;
      assert cmp(es[i + 1].key, es[i].key) <= 0 && cmp(es[i].key, es[i + 1].key) <= 0;
      TotalOrder(cmp, es[i].key, es[i + 1].key);
    }
  }

  /** Looks at neighbours only; the entries are sorted. */
  method RefuseDuplicates(es: seq<Entry>, cmp: (Key, Key) -> int) returns (ok: bool)
    requires Preorder(cmp) && Sorted(es, cmp)
    ensures ok <==> NoTies(es, cmp)
  {
    hide Preorder, Sorted;
    var i := 1;
    while i < |es|
      invariant 1 <= i && forall k :: 1 <= k < i && k < |es| ==> cmp(es[k - 1].key, es[k].key) != 0
    {
      if cmp(es[i - 1].key, es[i].key) == 0 { return false; }
      i := i + 1;
    }
    forall a, b | 0 <= a < b < |es|
      ensures cmp(es[a].key, es[b].key) != 0
    {
      if cmp(es[a].key, es[b].key) == 0 {
        NeighboursTie(es, cmp, a, b);
        assert false;
      }
    }
    ok := true;
  }

  // -- the page -------------------------------------------------------------------------------------------

  /** A root that is a leaf without neighbours. */
  function LeafHeader(ks: nat, count: nat): (h: seq<byte>)
    requires ks < 65536 && count < 65536
    ensures |h| == 18
  {
    [1, 1] + Le32(NO_PAGE) + Le32(NO_PAGE) + [1, 0] + Le16(ks) + Le16(count) + [0, 0]
  }

  /** The header is written, and the first i entries behind it. */
  ghost predicate Written(p: seq<byte>, size: nat, ks: nat, es: seq<Entry>, i: nat)
  {
    && |p| == size >= 18 && ks < 65536 && |es| < 65536 && p[..18] == LeafHeader(ks, |es|)
    && i <= |es| && Offset(|es|, ks + 6) <= size
    && forall k :: 0 <= k < i ==> EntryOf(p, k, ks) == es[k]
  }

  /** An entry that can be written. */
  predicate Writable(e: Entry, ks: nat)
  {
    |e.key| == ks && 0 <= e.pageNo < 0x8000_0000 && e.itemNo < 65536
  }

  lemma EntryFits(size: nat, ks: nat, n: nat, i: nat)
    requires i < n && Offset(n, ks + 6) <= size
    ensures 18 <= Offset(i, ks + 6) && Offset(i, ks + 6) + ks + 6 <= size
  {
    OffsetsApart(i, n, ks + 6);
  }

  lemma HeaderPut(p: seq<byte>, ks: nat, es: seq<Entry>)
    requires |p| >= 18 && ks < 65536 && |es| < 65536 && Offset(|es|, ks + 6) <= |p|
    ensures Written(Patched(p, 0, LeafHeader(ks, |es|)), |p|, ks, es, 0)
  {
    hide LeafHeader, Offset;
  }

  lemma EntryPut(p: seq<byte>, size: nat, ks: nat, es: seq<Entry>, i: nat)
    requires Written(p, size, ks, es, i) && i < |es| && Writable(es[i], ks)
    ensures Offset(i, ks + 6) + |EncodeEntry(es[i])| <= |p|
    ensures Written(Patched(p, Offset(i, ks + 6), EncodeEntry(es[i])), size, ks, es, i + 1)
  {
    hide LeafHeader, Offset, EncodeEntry, DecodeEntry;
    EntryFits(size, ks, |es|, i);
    EntryRoundTrip(es[i]);
    var at, c := Offset(i, ks + 6), EncodeEntry(es[i]);
    var q := Patched(p, at, c);
    assert q[..18] == p[..18];
    forall k | 0 <= k < i + 1
      ensures EntryOf(q, k, ks) == es[k]
    {
      EntryFits(size, ks, |es|, k);
      if k < i {
        OffsetsApart(k, i, ks + 6);
        assert Chunk(q, k, ks) == Chunk(p, k, ks);
      } else {
        assert Chunk(q, k, ks) == c;
      }
    }
  }

  lemma CountWritten(p: seq<byte>, size: nat, ks: nat, es: seq<Entry>)
    requires Written(p, size, ks, es, |es|) && ks > 0
    ensures LeafOk(p, ks) && Entries(p, ks) == es
  {
    hide Offset, EntryOf, Le32;
    var h := LeafHeader(ks, |es|);
    assert p[14] == p[..18][14] == h[14] == Le16(|es|)[0];
    assert p[15] == p[..18][15] == h[15] == Le16(|es|)[1];
    assert ReadLe16(p, 14) == |es|;
  }

  lemma RoomFor(n: nat, ks: nat, size: nat)
    requires size < 65536
    ensures 18 + n * (ks + 6) == Offset(n, ks + 6)
    ensures Offset(n, ks + 6) <= size ==> n < 65536 && size >= 18
  {
    MulPositive(n, ks + 5);
    MulDist(ks + 5, 1, n);
  }

  /** Writes a single root and leaf page holding the entries, if they fit. */
  method WriteIndexLeaf(payload: array<byte>, ks: nat, es: seq<Entry>) returns (ok: bool)
    requires 0 < ks < 65536 && payload.Length < 65536 && forall i :: 0 <= i < |es| ==> Writable(es[i], ks)
    modifies payload
    ensures ok <==> Offset(|es|, ks + 6) <= payload.Length
    ensures !ok ==> payload[..] == old(payload[..])
    ensures ok ==> LeafOk(payload[..], ks) && Entries(payload[..], ks) == es
  {
    hide *;
    RoomFor(|es|, ks, payload.Length);
    if 18 + |es| * (ks + 6) > payload.Length { return false; }
    HeaderPut(payload[..], ks, es);
    PutBytes(payload, 0, LeafHeader(ks, |es|));
    var i := 0;
    while i < |es|
      invariant i <= |es| && Written(payload[..], payload.Length, ks, es, i)
    {
      EntryPut(payload[..], payload.Length, ks, es, i);
      CanWrite(es[i], ks);
      PutBytes(payload, Offset(i, ks + 6), EncodeEntry(es[i]));
      i := i + 1;
    }
    CountWritten(payload[..], payload.Length, ks, es);
    ok := true;
  }

  lemma CanWrite(e: Entry, ks: nat)
    requires Writable(e, ks)
    ensures 0 <= e.pageNo < 0x8000_0000 && e.itemNo < 65536
  {
  }

  // -- the build ------------------------------------------------------------------------------------------

  method BuildIndexLeafEntries(ids: seq<RecordID>, rows: Rows, cmp: (Key, Key) -> int, keyOf: Record -> Key)
      returns (es: seq<Entry>)
    requires Listing(ids, rows) && forall i :: 0 <= i < |ids| ==> ids[i] in rows && ids[i].slot >= 0
    ensures es == StablySorted(Unsorted(ids, rows, keyOf), cmp)
  {
    var unsorted: seq<Entry> := [];
    var i := 0;
    while i < |ids|
      invariant i <= |ids| && unsorted == Unsorted(ids, rows, keyOf)[..i]
    {
      unsorted := unsorted + [EntryFor(keyOf(rows[ids[i]]), ids[i])];
      i := i + 1;
    }
    assert Unsorted(ids, rows, keyOf)[..|ids|] == Unsorted(ids, rows, keyOf);
    es := SortStable(unsorted, cmp);
  }

  lemma ListingParts(ids: seq<RecordID>, rows: Rows)
    requires Listing(ids, rows)
    ensures forall i :: 0 <= i < |ids| ==> ids[i] in rows && ids[i].slot >= 0
    ensures forall i, j :: 0 <= i < j < |ids| ==> ids[i] != ids[j]
  {
    forall i | 0 <= i < |ids|
      ensures ids[i] in rows
    {
      assert ids[i] in ids;
    }
  }

  lemma WholePart(ids: seq<RecordID>, rows: Rows)
    requires Listing(ids, rows) && forall i :: 0 <= i < |ids| ==> ids[i] in rows
    ensures Part(rows, ids) == rows
  {
  }

  lemma EntriesWritable(es: seq<Entry>, ids: seq<RecordID>, rows: Rows, born: Births, clock: nat,
                        cmp: (Key, Key) -> int, keyOf: Record -> Key, ks: nat)
    requires Kept(es, rows, born, clock, false, cmp, keyOf) && Listing(ids, rows)
    requires forall id :: id in rows ==> |keyOf(rows[id])| == ks
    ensures forall i :: 0 <= i < |es| ==> Writable(es[i], ks)
  {
    hide Sorted, OncePerRow, Complete, TiesByBirth;
    forall i | 0 <= i < |es|
      ensures Writable(es[i], ks)
    {
      assert Target(es[i]) in ids;
    }
  }

  lemma AlsoUnique(es: seq<Entry>, rows: Rows, born: Births, clock: nat, unique: bool, cmp: (Key, Key) -> int,
                   keyOf: Record -> Key)
    requires Kept(es, rows, born, clock, false, cmp, keyOf) && (unique ==> NoTies(es, cmp))
    ensures Kept(es, rows, born, clock, unique, cmp, keyOf)
  {
    hide Sorted, Current, OncePerRow, Complete, TiesByBirth, NoTies;
  }

  lemma KeptSorted(es: seq<Entry>, rows: Rows, born: Births, clock: nat, cmp: (Key, Key) -> int, keyOf: Record -> Key)
    requires Kept(es, rows, born, clock, false, cmp, keyOf)
    ensures Sorted(es, cmp)
  {
    hide Sorted, Current, OncePerRow, Complete, TiesByBirth;
  }

  /** Builds the leaf of a new index over the rows there are. It is refused exactly when the index is to be unique and
      two rows tie, or when the rows do not fit one page; otherwise the leaf agrees with the rows as the table writer
      needs it to, equal keys in the order the records are read. */
  method BuildLeaf(payload: array<byte>, ks: nat, unique: bool, ids: seq<RecordID>, rows: Rows,
                   cmp: (Key, Key) -> int, keyOf: Record -> Key)
      returns (r: BuildResult)
    requires 0 < ks < 65536 && payload.Length < 65536 && Preorder(cmp) && Listing(ids, rows)
    requires forall id :: id in rows ==> |keyOf(rows[id])| == ks
    modifies payload
    ensures r == if unique && RowsTie(rows, cmp, keyOf) then Duplicate
                 else if Offset(|ids|, ks + 6) > payload.Length then TooManyRows else Built
    ensures r != Built ==> payload[..] == old(payload[..])
    ensures r == Built ==>
      && LeafOk(payload[..], ks)
      && Kept(Entries(payload[..], ks), rows, ReadOrder(ids), |ids|, unique, cmp, keyOf)
  {
    hide *;
    ListingParts(ids, rows);
    WholePart(ids, rows);
    BuiltKept(ids, rows, cmp, keyOf);
    var es := BuildIndexLeafEntries(ids, rows, cmp, keyOf);
    ghost var born := ReadOrder(ids);
    KeptSorted(es, rows, born, |ids|, cmp, keyOf);
    TiesAreRows(es, rows, born, |ids|, cmp, keyOf);
    if unique {
      var ok := RefuseDuplicates(es, cmp);
      if !ok { return Duplicate; }
    }
    EntriesWritable(es, ids, rows, born, |ids|, cmp, keyOf, ks);
    var ok := WriteIndexLeaf(payload, ks, es);
    if !ok { return TooManyRows; }
    AlsoUnique(es, rows, born, |ids|, unique, cmp, keyOf);
    r := Built;
  }
}
