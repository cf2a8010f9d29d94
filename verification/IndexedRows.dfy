/** What an index leaf and the table's records have to do with each other. */
module IndexedRows {
  import opened Bits
  import opened Inflate
  import opened BTreeLookup
  import opened IndexLeaves

  type Record = seq<byte>

  /** A record's place: its data page and its slot there. */
  datatype RecordID = RecordID(pageNo: int, slot: int)

  type Rows = map<RecordID, Record>

  /** When each record's entry was put where it is. */
  type Births = map<RecordID, nat>

  function Target(e: Entry): RecordID
  {
    RecordID(e.pageNo, e.itemNo)
  }

  function EntryFor(key: Key, id: RecordID): (e: Entry)
    requires id.slot >= 0
    ensures Target(e) == id && e.key == key
  {
    Entry(key, id.pageNo, id.slot)
  }

  /** Where a record's entry is, or the number of entries. */
  function At(es: seq<Entry>, id: RecordID): (n: nat)
    ensures n <= |es| && (n < |es| ==> Target(es[n]) == id)
    ensures forall i :: 0 <= i < n ==> Target(es[i]) != id
  {
    assert forall i {:trigger es[i]} :: 0 <= i < |es| ==>
      (PointsAt(es[i], id.pageNo, id.slot) <==> Target(es[i]) == id);
    FirstAt(es, id.pageNo, id.slot)
  }

  /** Every entry carries the current key of the record it points at. */
  ghost predicate Current(es: seq<Entry>, rows: Rows, keyOf: Record -> Key)
  {
    forall i :: 0 <= i < |es| ==> Target(es[i]) in rows && es[i].key == keyOf(rows[Target(es[i])])
  }

  ghost predicate OncePerRow(es: seq<Entry>)
  {
    forall i, j :: 0 <= i < j < |es| ==> Target(es[i]) != Target(es[j])
  }

  ghost predicate Complete(es: seq<Entry>, rows: Rows)
  {
    forall id :: id in rows ==> At(es, id) < |es|
  }

  ghost predicate NoTies(es: seq<Entry>, cmp: (Key, Key) -> int)
  {
    forall i, j :: 0 <= i < j < |es| ==> cmp(es[i].key, es[j].key) != 0
  }

  /** Equal keys stand in the order in which their entries were inserted. */
  ghost predicate TiesByBirth(es: seq<Entry>, born: Births, clock: nat, cmp: (Key, Key) -> int)
  {
    && (forall i :: 0 <= i < |es| ==> Target(es[i]) in born && born[Target(es[i])] < clock)
    && (forall i, j :: 0 <= i < j < |es| && cmp(es[i].key, es[j].key) == 0 ==>
          born[Target(es[i])] < born[Target(es[j])])
  }

  /** The leaf agrees with the records, whatever the order of its ties. */
  ghost predicate Agrees(es: seq<Entry>, rows: Rows, unique: bool, cmp: (Key, Key) -> int, keyOf: Record -> Key)
  {
    && Sorted(es, cmp) && Current(es, rows, keyOf) && OncePerRow(es) && Complete(es, rows)
    && (unique ==> NoTies(es, cmp))
  }

  /** The leaf agrees with the records, equal keys in insertion order. */
  ghost predicate Kept(es: seq<Entry>, rows: Rows, born: Births, clock: nat, unique: bool, cmp: (Key, Key) -> int,
      keyOf: Record -> Key)
  {
    Agrees(es, rows, unique, cmp, keyOf) && TiesByBirth(es, born, clock, cmp)
  }

  /** The entries of a leaf as found, born in the order they stand in. */
  ghost function Positions(es: seq<Entry>): Births
  {
    map id | id in Targets(es) :: At(es, id)
  }

  ghost function Targets(es: seq<Entry>): set<RecordID>
  {
    set i | 0 <= i < |es| :: Target(es[i])
  }

  lemma KeptAsFound(es: seq<Entry>, rows: Rows, unique: bool, cmp: (Key, Key) -> int, keyOf: Record -> Key, clock: nat)
    requires Agrees(es, rows, unique, cmp, keyOf) && |es| <= clock
    ensures Kept(es, rows, Positions(es), clock, unique, cmp, keyOf)
  {
    hide At, Sorted, Current, Complete, NoTies, Target;
    forall i | 0 <= i < |es|
      ensures Target(es[i]) in Positions(es) && Positions(es)[Target(es[i])] == i
    {
      var at := At(es, Target(es[i]));
      assert at <= i;
    }
  }

  // -- a record added ----------------------------------------------------------------------------------

  lemma AddedPart(es: seq<Entry>, e: Entry, cmp: (Key, Key) -> int, i: nat)
    requires i <= |es|
    ensures |Inserted(es, e, cmp)| == |es| + 1
    ensures Inserted(es, e, cmp)[i] == e || Inserted(es, e, cmp)[i] in es
  {
    hide Place, Inserted;
    InsertedAt(es, e, cmp, i);
  }

  lemma AddedCurrent(es: seq<Entry>, rows: Rows, keyOf: Record -> Key, id: RecordID, rec: Record,
      cmp: (Key, Key) -> int)
    requires Current(es, rows, keyOf) && id !in rows && id.slot >= 0
    ensures Current(Inserted(es, EntryFor(keyOf(rec), id), cmp), rows[id := rec], keyOf)
  {
    hide Inserted;
    var e := EntryFor(keyOf(rec), id);
    var r := Inserted(es, e, cmp);
    forall i | 0 <= i < |r|
      ensures Target(r[i]) in rows[id := rec] && r[i].key == keyOf(rows[id := rec][Target(r[i])])
    {
      AddedPart(es, e, cmp, i);
    }
  }

  lemma AddedOnce(es: seq<Entry>, e: Entry, cmp: (Key, Key) -> int)
    requires OncePerRow(es) && forall i :: 0 <= i < |es| ==> Target(es[i]) != Target(e)
    ensures OncePerRow(Inserted(es, e, cmp))
  {
    hide Inserted, Place, Target;
    var r := Inserted(es, e, cmp);
    forall i, j | 0 <= i < j < |r|
      ensures Target(r[i]) != Target(r[j])
    {
      InsertedAt(es, e, cmp, i);
      InsertedAt(es, e, cmp, j);
    }
  }

  lemma FoundAt(es: seq<Entry>, id: RecordID, i: nat)
    requires i < |es| && Target(es[i]) == id
    ensures At(es, id) <= i
  {
    hide At;
  }

  lemma AddedComplete(es: seq<Entry>, rows: Rows, e: Entry, rec: Record, cmp: (Key, Key) -> int)
    requires Complete(es, rows)
    ensures Complete(Inserted(es, e, cmp), rows[Target(e) := rec])
  {
    hide Inserted, Place, At, Target;
    var r, n := Inserted(es, e, cmp), Place(es, e.key, cmp);
    forall id | id in rows[Target(e) := rec]
      ensures At(r, id) < |r|
    {
      if id == Target(e) {
        InsertedAt(es, e, cmp, n);
        FoundAt(r, id, n);
      } else {
        var k := At(es, id);
        var k' := if k < n then k else k + 1;
        InsertedAt(es, e, cmp, k');
        FoundAt(r, id, k');
      }
    }
  }

  lemma AddedNoTies(es: seq<Entry>, e: Entry, cmp: (Key, Key) -> int)
    requires Preorder(cmp) && NoTies(es, cmp) && !Has(es, e.key, cmp)
    ensures NoTies(Inserted(es, e, cmp), cmp)
  {
    hide Inserted, Place, Preorder;
    var r := Inserted(es, e, cmp);
    forall i, j | 0 <= i < j < |r|
      ensures cmp(r[i].key, r[j].key) != 0
    {
      InsertedAt(es, e, cmp, i);
      InsertedAt(es, e, cmp, j);
      TotalOrder(cmp, r[i].key, r[j].key);
    }
  }

  lemma AddedTies(es: seq<Entry>, born: Births, clock: nat, e: Entry, cmp: (Key, Key) -> int)
    requires Preorder(cmp) && Sorted(es, cmp) && TiesByBirth(es, born, clock, cmp)
    requires forall i :: 0 <= i < |es| ==> Target(es[i]) != Target(e)
    ensures TiesByBirth(Inserted(es, e, cmp), born[Target(e) := clock], clock + 1, cmp)
  {
    hide Inserted, Place, Preorder, Target, Sorted;
    var r, n, after := Inserted(es, e, cmp), Place(es, e.key, cmp), born[Target(e) := clock];
    forall i | 0 <= i < |r|
      ensures Target(r[i]) in after && after[Target(r[i])] < clock + 1
    {
      InsertedAt(es, e, cmp, i);
    }
    PlacedAbove(es, e.key, cmp);
    forall i, j | 0 <= i < j < |r| && cmp(r[i].key, r[j].key) == 0
      ensures after[Target(r[i])] < after[Target(r[j])]
    {
      InsertedAt(es, e, cmp, i);
      InsertedAt(es, e, cmp, j);
      if i == n { TotalOrder(cmp, r[i].key, r[j].key); }
    }
  }

  /** A new record's entry, put behind everything not above it, keeps the leaf in agreement. */
  lemma RowAdded(es: seq<Entry>, rows: Rows, born: Births, clock: nat, unique: bool, cmp: (Key, Key) -> int,
      keyOf: Record -> Key, id: RecordID, rec: Record)
    requires Preorder(cmp) && Kept(es, rows, born, clock, unique, cmp, keyOf)
    requires id !in rows && id.slot >= 0 && (unique ==> !Has(es, keyOf(rec), cmp))
    ensures Kept(Inserted(es, EntryFor(keyOf(rec), id), cmp), rows[id := rec], born[id := clock], clock + 1, unique,
        cmp, keyOf)
  {
    hide Inserted, Preorder, Sorted, OncePerRow, Complete, NoTies, TiesByBirth, Has;
    var e := EntryFor(keyOf(rec), id);
    InsertedSorted(es, e, cmp);
    AddedCurrent(es, rows, keyOf, id, rec, cmp);
    AddedOnce(es, e, cmp);
    AddedComplete(es, rows, e, rec, cmp);
    if unique { AddedNoTies(es, e, cmp); }
    AddedTies(es, born, clock, e, cmp);
  }

  // -- a record dropped ----------------------------------------------------------------------------------

  lemma DroppedComplete(es: seq<Entry>, rows: Rows, id: RecordID)
    requires Complete(es, rows) && id in rows
    ensures At(es, id) < |es| && Complete(Without(es, At(es, id)), rows - {id})
  {
    hide Without, At, Target;
    var n := At(es, id);
    var r := Without(es, n);
    forall other | other in rows - {id}
      ensures At(r, other) < |r|
    {
      var k := At(es, other);
      var k' := if k < n then k else k - 1;
      WithoutAt(es, n, k');
      FoundAt(r, other, k');
    }
  }

  lemma DroppedCurrent(es: seq<Entry>, rows: Rows, keyOf: Record -> Key, id: RecordID)
    requires Current(es, rows, keyOf) && OncePerRow(es) && At(es, id) < |es|
    ensures Current(Without(es, At(es, id)), rows - {id}, keyOf) && OncePerRow(Without(es, At(es, id)))
  {
    hide Without, At, Target;
    var n := At(es, id);
    var r := Without(es, n);
    forall i | 0 <= i < |r|
      ensures Target(r[i]) in rows - {id} && r[i].key == keyOf(rows[Target(r[i])])
    {
      WithoutAt(es, n, i);
    }
    forall i, j | 0 <= i < j < |r|
      ensures Target(r[i]) != Target(r[j])
    {
      WithoutAt(es, n, i);
      WithoutAt(es, n, j);
    }
  }

  lemma DroppedTies(es: seq<Entry>, born: Births, clock: nat, cmp: (Key, Key) -> int, n: nat)
    requires n < |es| && TiesByBirth(es, born, clock, cmp)
    ensures TiesByBirth(Without(es, n), born, clock, cmp)
    ensures NoTies(es, cmp) ==> NoTies(Without(es, n), cmp)
  {
    hide Without, Target;
    var r := Without(es, n);
    forall i | 0 <= i < |r|
      ensures r[i] in es
    {
      WithoutAt(es, n, i);
    }
    forall i, j | 0 <= i < j < |r|
      ensures cmp(r[i].key, r[j].key) == 0 ==> born[Target(r[i])] < born[Target(r[j])]
      ensures NoTies(es, cmp) ==> cmp(r[i].key, r[j].key) != 0
    {
      WithoutAt(es, n, i);
      WithoutAt(es, n, j);
    }
  }

  /** A record's entry taken out keeps the leaf in agreement with the records that remain. */
  lemma RowDropped(es: seq<Entry>, rows: Rows, born: Births, clock: nat, unique: bool, cmp: (Key, Key) -> int,
      keyOf: Record -> Key, id: RecordID)
    requires Kept(es, rows, born, clock, unique, cmp, keyOf) && id in rows
    ensures At(es, id) < |es|
    ensures Kept(Without(es, At(es, id)), rows - {id}, born, clock, unique, cmp, keyOf)
  {
    hide Without, At, Sorted, Current, OncePerRow, NoTies, TiesByBirth, Complete;
    DroppedComplete(es, rows, id);
    var n := At(es, id);
    WithoutSorted(es, n, cmp);
    DroppedCurrent(es, rows, keyOf, id);
    DroppedTies(es, born, clock, cmp, n);
  }

  // -- a record changed ------------------------------------------------------------------------------------

  lemma SameKey(es: seq<Entry>, rows: Rows, born: Births, clock: nat, unique: bool, cmp: (Key, Key) -> int,
      keyOf: Record -> Key, id: RecordID, rec: Record)
    requires Kept(es, rows, born, clock, unique, cmp, keyOf) && id in rows && keyOf(rec) == keyOf(rows[id])
    ensures Kept(es, rows[id := rec], born, clock, unique, cmp, keyOf)
  {
    hide At, Sorted, OncePerRow, NoTies, TiesByBirth;
  }

  /** A key that ties with none, or only with the record's own old key, ties with none once that is out. */
  lemma NoTieLeft(es: seq<Entry>, cmp: (Key, Key) -> int, n: nat, key: Key)
    requires Preorder(cmp) && NoTies(es, cmp) && n < |es|
    requires Has(es, key, cmp) ==> cmp(es[n].key, key) == 0
    ensures !Has(Without(es, n), key, cmp)
  {
    hide Without;
    var r := Without(es, n);
    forall i | 0 <= i < |r|
      ensures cmp(r[i].key, key) != 0
    {
      WithoutAt(es, n, i);
      var k := if i < n then i else i + 1;
      if cmp(es[k].key, key) == 0 && cmp(es[n].key, key) == 0 {
        TiesJoin(cmp, es[k].key, es[n].key, key);
        assert false;
      }
    }
  }

  lemma TiesJoin(cmp: (Key, Key) -> int, a: Key, b: Key, c: Key)
    requires Preorder(cmp) && cmp(a, c) == 0 && cmp(b, c) == 0
    ensures cmp(a, b) == 0 && cmp(b, a) == 0
  {
    TotalOrder(cmp, a, c);
    TotalOrder(cmp, b, c);
    assert cmp(a, b) <= 0 && cmp(b, a) <= 0;
  }

  /** A changed key moves its entry: out, and in again behind everything not above it. */
  lemma RowMoved(es: seq<Entry>, rows: Rows, born: Births, clock: nat, unique: bool, cmp: (Key, Key) -> int,
      keyOf: Record -> Key, id: RecordID, rec: Record)
    requires Preorder(cmp) && Kept(es, rows, born, clock, unique, cmp, keyOf) && id in rows && id.slot >= 0
    requires unique ==> !Has(es, keyOf(rec), cmp) || cmp(keyOf(rows[id]), keyOf(rec)) == 0
    ensures At(es, id) < |es|
    ensures var r := Inserted(Without(es, At(es, id)), EntryFor(keyOf(rec), id), cmp);
      Kept(r, rows[id := rec], born[id := clock], clock + 1, unique, cmp, keyOf)
  {
    hide Inserted, Without, At, Sorted, OncePerRow, Complete, TiesByBirth, Preorder, NoTies, Has;
    RowDropped(es, rows, born, clock, unique, cmp, keyOf, id);
    var n := At(es, id);
    if unique { NoTieLeft(es, cmp, n, keyOf(rec)); }
    RowAdded(Without(es, n), rows - {id}, born, clock, unique, cmp, keyOf, id, rec);
    assert (rows - {id})[id := rec] == rows[id := rec];
  }

  // -- what the records alone say of a key -------------------------------------------------------------

  /** The key ties with that of some record other than the excepted one. */
  ghost predicate Taken(rows: Rows, cmp: (Key, Key) -> int, keyOf: Record -> Key, key: Key, except: Option<RecordID>)
  {
    exists p :: p in rows && except != Some(p) && cmp(keyOf(rows[p]), key) == 0
  }

  lemma EntryOfRow(es: seq<Entry>, rows: Rows, unique: bool, cmp: (Key, Key) -> int, keyOf: Record -> Key, p: RecordID)
      returns (i: nat)
    requires Agrees(es, rows, unique, cmp, keyOf) && p in rows
    ensures i < |es| && Target(es[i]) == p && es[i].key == keyOf(rows[p])
  {
    hide Sorted, OncePerRow, NoTies, Target;
    i := At(es, p);
  }

  /** A key is held by an agreeing leaf exactly when it ties with some record's. */
  lemma HasIsTaken(es: seq<Entry>, rows: Rows, unique: bool, cmp: (Key, Key) -> int, keyOf: Record -> Key, key: Key)
    requires Agrees(es, rows, unique, cmp, keyOf)
    ensures Has(es, key, cmp) <==> Taken(rows, cmp, keyOf, key, None)
  {
    hide Sorted, OncePerRow, NoTies, Complete, Target;
    if Taken(rows, cmp, keyOf, key, None) {
      var p :| p in rows && cmp(keyOf(rows[p]), key) == 0;
      var i := EntryOfRow(es, rows, unique, cmp, keyOf, p);
    }
    if Has(es, key, cmp) {
      var i :| 0 <= i < |es| && cmp(es[i].key, key) == 0;
      assert Target(es[i]) in rows;
    }
  }

  /** In a unique index a key ties with another record's exactly when the leaf holds it and it is not the record's. */
  lemma OthersTaken(es: seq<Entry>, rows: Rows, cmp: (Key, Key) -> int, keyOf: Record -> Key, key: Key, id: RecordID)
    requires Preorder(cmp) && Agrees(es, rows, true, cmp, keyOf) && id in rows
    ensures Taken(rows, cmp, keyOf, key, Some(id)) <==> Has(es, key, cmp) && cmp(keyOf(rows[id]), key) != 0
  {
    hide Sorted, OncePerRow, Complete, Target, Preorder;
    if Taken(rows, cmp, keyOf, key, Some(id)) {
      var p :| p in rows && p != id && cmp(keyOf(rows[p]), key) == 0;
      var i := EntryOfRow(es, rows, true, cmp, keyOf, p);
      var j := EntryOfRow(es, rows, true, cmp, keyOf, id);
      if cmp(keyOf(rows[id]), key) == 0 {
        TiesJoin(cmp, keyOf(rows[p]), keyOf(rows[id]), key);
        assert false;
      }
    }
    if Has(es, key, cmp) && cmp(keyOf(rows[id]), key) != 0 {
      var i :| 0 <= i < |es| && cmp(es[i].key, key) == 0;
      assert Target(es[i]) in rows && Target(es[i]) != id;
    }
  }

  lemma {:induction false} TargetCount(es: seq<Entry>)
    requires OncePerRow(es)
    ensures |Targets(es)| == |es|
  {
    hide Target;
    if es == [] {
      assert Targets(es) == {};
    } else {
      var n := |es| - 1;
      TargetCount(es[..n]);
      assert Target(es[n]) !in Targets(es[..n]);
      assert Targets(es) == Targets(es[..n]) + {Target(es[n])} by {
        forall p | p in Targets(es)
          ensures p in Targets(es[..n]) + {Target(es[n])}
        {
          var i :| 0 <= i < |es| && Target(es[i]) == p;
          if i < n { assert es[..n][i] == es[i]; }
        }
      }
    }
  }

  /** An agreeing leaf has as many entries as there are records. */
  lemma SizeAgrees(es: seq<Entry>, rows: Rows, unique: bool, cmp: (Key, Key) -> int, keyOf: Record -> Key)
    requires Agrees(es, rows, unique, cmp, keyOf)
    ensures |es| == |rows|
  {
    hide Sorted, NoTies, Target;
    TargetCount(es);
    assert Targets(es) == rows.Keys by {
      hide OncePerRow;
      forall p | p in rows
        ensures p in Targets(es)
      {
        var i := EntryOfRow(es, rows, unique, cmp, keyOf, p);
      }
    }
  }
}
