/** Edits that undo one another, and what every run of edits keeps. */
module SchemaRuns {
  import opened Bits
  import opened Inflate
  import opened TableCatalog
  import opened Codecs
  import opened SchemaFields
  import opened SchemaStream
  import opened SchemaEdits
  import R = SchemaRecords
  import C = SchemaColumns

  // -- one edit undone by another ---------------------------------------------------------------------------

  /** The bytes written behind a stretch are the last record's. */
  lemma LastBounds<A(!new)>(c: Codec<A>, n: nat, body: Bytes, x: A)
    requires Lawful(c) && ReadList(c, n, body).Got? && ReadList(c, n, body).size == |body| && c.accepts(x) && c.sound(x)
    ensures Bounds(c, n, body + c.write(x), |body|, |body + c.write(x)|)
    ensures CutOut(body + c.write(x), |body|, |body + c.write(x)|) == body
  {
    hide Lawful, ReadList;
    ListWith(c, n, body, x);
    ListLocal(c, n, body, c.write(x));
    assert body[..|body|] + c.write(x) == body + c.write(x);
  }

  /** An index that was just created is dropped: the stream is as it was, byte for byte. */
  lemma IndexUndone(s: Bytes, r: R.IndexRecord)
    requires ParseStream(s).Some? && R.WritableIndex(r) && |ParseStream(s).value.indexes| < MAX_COUNT
    ensures var x, t := ParseStream(s).value, IndexCreated(s, r, None);
      ParseStream(t) == Some(SchemaWithIndex(x, r, None)) && IndexDropped(t, |x.indexes|) == s
  {
    hide Lawful, ReadList, ParseStream, Assemble, Bounds, PiecesAre, Holds, CutOut, InLimits, C.ColumnC, R.IndexC,
      R.ConstraintC;
    ArraysLawful();
    var p, x := PiecesOf(s), ParseStream(s).value;
    PiecesParts(p, s);
    var q := IndexAdded(p, r, None);
    IndexBehind(p, x, r, None);
    R.IndexSound(r);
    R.IndexAccepted(r);
    LastBounds(R.IndexC(), p.indexCount, p.indexes, r);
    var t := Assemble(q);
    AddedPieces(p, x, r, t);
    DroppedIs(q, t, p.indexCount, |p.indexes|, |q.indexes|);
  }

  lemma PiecesParts(p: Pieces, s: Bytes)
    requires ParseStream(s).Some? && PiecesAre(p, s)
    ensures var x := ParseStream(s).value;
      && Counts32(p) && InLimits(p) && Assemble(p) == s && Holds(p, x)
      && |x.columns| == p.columnCount <= R.MAX_SCHEMA_COLUMNS && |x.indexes| == p.indexCount <= MAX_COUNT
      && ReadList(R.IndexC(), p.indexCount, p.indexes) == Got(x.indexes, |p.indexes|)
      && ReadList(C.ColumnC(), p.columnCount, p.columns) == Got(x.columns, |p.columns|)
  {
    hide ParseStream, ReadList, Assemble, C.ColumnC, R.IndexC, R.ConstraintC;
    Lengths(p, ParseStream(s).value);
  }

  lemma AddedPieces(p: Pieces, x: Schema, r: R.IndexRecord, t: Bytes)
    requires Counts32(p) && InLimits(p) && Holds(p, x) && R.WritableIndex(r) && p.indexCount < MAX_COUNT
    requires t == Assemble(IndexAdded(p, r, None)) && ParseStream(t) == Some(SchemaWithIndex(x, r, None))
    ensures PiecesAre(IndexAdded(p, r, None), t)
  {
    hide Lawful, ReadList, ParseStream, Assemble, C.ColumnC, R.IndexC, R.ConstraintC;
    ArraysLawful();
    R.IndexSound(r);
    R.IndexAccepted(r);
    RecordNorms(r, None);
    ListWith(R.IndexC(), p.indexCount, p.indexes, r);
  }

  /** A column that was just added is dropped: the stream is as it was, byte for byte. */
  lemma ColumnUndone(s: Bytes, c: C.Column)
    requires ParseStream(s).Some? && C.WritableColumn(c) && |ParseStream(s).value.columns| < R.MAX_SCHEMA_COLUMNS
    ensures var x, t := ParseStream(s).value, ColumnCreated(s, c);
      ParseStream(t) == Some(x.(columns := x.columns + [C.NormColumn(c)])) && ColumnDropped(t, |x.columns|) == s
  {
    hide Lawful, ReadList, ParseStream, Assemble, Bounds, PiecesAre, Holds, CutOut, InLimits, C.ColumnC, R.IndexC,
      R.ConstraintC;
    ArraysLawful();
    var p, x := PiecesOf(s), ParseStream(s).value;
    PiecesParts(p, s);
    var q := ColumnAdded(p, c);
    ColumnBehind(p, x, c);
    C.ColumnSound(c);
    C.ColumnAccepted(c);
    LastBounds(C.ColumnC(), p.columnCount, p.columns, c);
    var t := Assemble(q);
    AddedColumnPieces(p, x, c, t);
    ColumnDroppedIs(q, t, p.columnCount, |p.columns|, |q.columns|);
  }

  lemma AddedColumnPieces(p: Pieces, x: Schema, c: C.Column, t: Bytes)
    requires Counts32(p) && InLimits(p) && Holds(p, x) && C.WritableColumn(c) && p.columnCount < R.MAX_SCHEMA_COLUMNS
    requires t == Assemble(ColumnAdded(p, c)) && ParseStream(t) == Some(x.(columns := x.columns + [C.NormColumn(c)]))
    ensures PiecesAre(ColumnAdded(p, c), t)
  {
    hide Lawful, ReadList, ParseStream, Assemble, C.ColumnC, R.IndexC, R.ConstraintC;
    ArraysLawful();
    C.ColumnSound(c);
    C.ColumnAccepted(c);
    ColumnNorm(c);
    ListWith(C.ColumnC(), p.columnCount, p.columns, c);
  }

  // -- comparing names --------------------------------------------------------------------------------------

  ghost predicate Equivalence(same: Same)
  {
    && (forall a :: same(a, a))
    && (forall a, b :: same(a, b) ==> same(b, a))
    && forall a, b, c :: same(a, b) && same(b, c) ==> same(a, c)
  }

  /** A name that none of the others is, put behind them, is found last. */
  lemma FoundLast(names: seq<Name>, last: Name, wanted: Name, same: Same)
    requires Find(names, wanted, same).None? && same(last, wanted)
    ensures Find(names + [last], wanted, same) == Some(|names|)
  {
    hide Find;
    var all := names + [last];
    assert all[|names|] == last && forall i :: 0 <= i < |names| ==> all[i] == names[i];
  }

  /** Nothing names the object as its owner. */
  predicate Unowned(x: Schema, objectId: nat)
  {
    forall k :: 0 <= k < |x.constraints| ==> x.constraints[k].owner != objectId
  }

  /** CREATE INDEX, then DROP INDEX of the same name. A plain index goes without a trace; a unique one stays, as it
      backs its constraint. */
  method CreateThenDrop(data: Bytes, q: Request, same: Same, usable: (seq<C.Column>, bool) -> bool)
    returns (created: Edit<Bytes>, dropped: Edit<Bytes>)
    requires ParseStream(data).Some? && HasIndexRoom(ParseStream(data).value, q)
    requires Unowned(ParseStream(data).value, q.objectId)
    requires Equivalence(same) && UpToNul(q.index) == q.index
    ensures created.Refused? ==> dropped == created
    ensures created.Done? && !q.unique ==> dropped == Done(data)
    ensures created.Done? && q.unique ==> dropped == Refused(BacksConstraint)
  {
    hide ParseStream, PlanIndex, DropIndexOn, IndexDropped, IndexCreated, Find, R.IndexC, R.ConstraintC, UpToNul;
    ghost var x := ParseStream(data).value;
    created := CreateIndex(data, q, same, usable);
    if created.Refused? { return created, created; }
    ghost var cs := PlanIndex(x, q, same, usable).value;
    PlanFits(x, q, same, usable);
    ghost var y := SchemaWithIndex(x, NewIndex(q, cs), NewConstraint(q, cs));
    Replanned(x, q, cs, same, usable);
    dropped := DropIndex(created.value, q.index, same);
    if !q.unique { IndexUndone(data, NewIndex(q, cs)); }
  }

  lemma Replanned(x: Schema, q: Request, cs: seq<C.Column>, same: Same, usable: (seq<C.Column>, bool) -> bool)
    requires PlanIndex(x, q, same, usable) == Done(cs) && (q.unique ==> cs != [])
    requires Equivalence(same) && UpToNul(q.index) == q.index && Unowned(x, q.objectId)
    ensures var y := SchemaWithIndex(x, NewIndex(q, cs), NewConstraint(q, cs));
      && Find(IndexNames(y.indexes), q.index, same) == Some(|x.indexes|)
      && DropIndexOn(y, q.index, same)
         == if q.unique then Refused(BacksConstraint) else Done(y.(indexes := x.indexes))
  {
    hide Find, UpToNul, R.IndexC, R.ConstraintC, NormList;
    var y := SchemaWithIndex(x, NewIndex(q, cs), NewConstraint(q, cs));
    assert IndexNames(y.indexes) == IndexNames(x.indexes) + [q.index];
    FoundLast(IndexNames(x.indexes), q.index, q.index, same);
    assert Without(y.indexes, |x.indexes|) == x.indexes;
  }

  // -- what every edit keeps --------------------------------------------------------------------------------

  predicate HasColumn(cs: seq<C.Column>, name: Name, same: Same)
  {
    exists j :: 0 <= j < |cs| && same(cs[j].name, name)
  }

  /** Every column an index record covers is there. */
  ghost predicate AllCovered(x: Schema, same: Same)
  {
    forall i, k :: 0 <= i < |x.indexes| && 0 <= k < |x.indexes[i].columns| ==>
      HasColumn(x.columns, x.indexes[i].columns[k].name, same)
  }

  /** Every column a constraint names is there. */
  ghost predicate AllNamed(x: Schema, same: Same)
  {
    forall i, n :: 0 <= i < |x.constraints| && n in NamedBy(x.constraints[i]) ==> HasColumn(x.columns, n, same)
  }

  predicate HasIndex(rs: seq<R.IndexRecord>, objectId: nat)
  {
    exists j :: 0 <= j < |rs| && rs[j].objectId == objectId
  }

  /** Every PRIMARY KEY and UNIQUE constraint has the index it is built on. */
  ghost predicate AllBacked(x: Schema)
  {
    forall i :: 0 <= i < |x.constraints| && x.constraints[i].body.KeyBody? ==>
      HasIndex(x.indexes, x.constraints[i].owner)
  }

  /** No column name holds a NUL. */
  predicate PlainColumns(cs: seq<C.Column>)
  {
    forall j :: 0 <= j < |cs| ==> UpToNul(cs[j].name) == cs[j].name
  }

  lemma UpToNulTwice(s: Name)
    ensures UpToNul(UpToNul(s)) == UpToNul(s)
  {
    UpToNulWhole(UpToNul(s));
  }

  lemma ReadPlain(s: Bytes)
    requires C.ColumnC().read(s).Got?
    ensures UpToNul(C.ColumnC().read(s).value.name) == C.ColumnC().read(s).value.name
  {
    hide UpToNul, Bind;
    var rest := Pair(U32C(), Bind(ByteC(), C.RestC));
    HeadRead(PascalC(1), rest, s);
    UpToNulTwice(s[1..1 + s[0] as int]);
  }

  lemma HeadRead<A, B>(a: Codec<A>, b: Codec<B>, s: Bytes)
    requires Pair(a, b).read(s).Got?
    ensures a.read(s).Got? && Pair(a, b).read(s).value.0 == a.read(s).value
  {
  }

  lemma {:induction false} ListPlain(n: nat, s: Bytes)
    requires ReadList(C.ColumnC(), n, s).Got?
    ensures PlainColumns(ReadList(C.ColumnC(), n, s).value)
  {
    hide UpToNul, C.ColumnC;
    if n > 0 {
      ListPlain(n - 1, s);
      ReadPlain(s[ReadList(C.ColumnC(), n - 1, s).size..]);
    }
  }

  /** So it is in every stream that is read. */
  lemma ParsedPlain(s: Bytes)
    requires ParseStream(s).Some?
    ensures PlainColumns(ParseStream(s).value.columns)
  {
    hide ParseStream, ReadList, PlainColumns, C.ColumnC, R.IndexC, R.ConstraintC;
    var p := PiecesOf(s);
    PiecesParts(p, s);
    ListPlain(p.columnCount, p.columns);
  }

  /** Nothing in the schema refers to what is not there. */
  ghost predicate Consistent(x: Schema, same: Same)
  {
    AllCovered(x, same) && AllNamed(x, same) && AllBacked(x) && PlainColumns(x.columns)
  }

  lemma DropIndexKeeps(x: Schema, index: Name, same: Same)
    requires Consistent(x, same) && DropIndexOn(x, index, same).Done?
    ensures Consistent(DropIndexOn(x, index, same).value, same)
  {
    hide Find, NamedBy, UpToNul;
    var i := Find(IndexNames(x.indexes), index, same).value;
    var y := x.(indexes := Without(x.indexes, i));
    forall c | 0 <= c < |x.constraints| && x.constraints[c].body.KeyBody?
      ensures HasIndex(y.indexes, x.constraints[c].owner)
    {
      var j :| 0 <= j < |x.indexes| && x.indexes[j].objectId == x.constraints[c].owner;
      assert j != i;
      WithoutAt(x.indexes, i, if j < i then j else j - 1);
    }
    forall m, k | 0 <= m < |y.indexes| && 0 <= k < |y.indexes[m].columns|
      ensures HasColumn(y.columns, y.indexes[m].columns[k].name, same)
    {
      WithoutAt(x.indexes, i, m);
    }
  }

  /** A column with another name than the dropped one's is still there. */
  lemma StillThere(cs: seq<C.Column>, i: nat, column: Name, name: Name, same: Same)
    requires i < |cs| && Equivalence(same) && same(cs[i].name, column)
    requires HasColumn(cs, name, same) && !same(name, column)
    ensures HasColumn(Without(cs, i), name, same)
  {
    var j :| 0 <= j < |cs| && same(cs[j].name, name);
    assert j != i;
    WithoutAt(cs, i, if j < i then j else j - 1);
  }

  lemma DropColumnKeeps(x: Schema, column: Name, same: Same)
    requires Consistent(x, same) && Equivalence(same) && DropColumnOn(x, column, same).Done?
    ensures Consistent(DropColumnOn(x, column, same).value, same)
  {
    hide Find, NamedBy, UpToNul, Equivalence, HasColumn, HasBlobPages;
    var i := Find(ColumnNames(x.columns), column, same).value;
    var y := x.(columns := Without(x.columns, i));
    forall m, k | 0 <= m < |y.indexes| && 0 <= k < |y.indexes[m].columns|
      ensures HasColumn(y.columns, y.indexes[m].columns[k].name, same)
    {
      assert !Covers(x.indexes[m], column, same);
      StillThere(x.columns, i, column, y.indexes[m].columns[k].name, same);
    }
    forall m, n | 0 <= m < |y.constraints| && n in NamedBy(y.constraints[m])
      ensures HasColumn(y.columns, n, same)
    {
      assert !Constrains(x.constraints[m], column, same);
      StillThere(x.columns, i, column, n, same);
    }
    forall j | 0 <= j < |y.columns|
      ensures UpToNul(y.columns[j].name) == y.columns[j].name
    {
      WithoutAt(x.columns, i, j);
    }
  }

  lemma MoreColumns(cs: seq<C.Column>, c: C.Column, name: Name, same: Same)
    requires HasColumn(cs, name, same)
    ensures HasColumn(cs + [c], name, same)
  {
    var j :| 0 <= j < |cs| && same(cs[j].name, name);
    assert (cs + [c])[j] == cs[j];
  }

  lemma AddColumnKeeps(x: Schema, c: C.Column, same: Same)
    requires Consistent(x, same) && AddColumnOn(x, c, same).Done?
    ensures Consistent(AddColumnOn(x, c, same).value, same)
  {
    hide Find, NamedBy, UpToNul, HasColumn, HasBlobPages, C.ColumnC;
    var y := AddColumnOn(x, c, same).value;
    forall m, k | 0 <= m < |y.indexes| && 0 <= k < |y.indexes[m].columns|
      ensures HasColumn(y.columns, y.indexes[m].columns[k].name, same)
    {
      MoreColumns(x.columns, C.NormColumn(c), y.indexes[m].columns[k].name, same);
    }
    forall m, n | 0 <= m < |y.constraints| && n in NamedBy(y.constraints[m])
      ensures HasColumn(y.columns, n, same)
    {
      MoreColumns(x.columns, C.NormColumn(c), n, same);
    }
    UpToNulTwice(c.name);
  }

  /** The columns of a new index and of its constraint, as they come back. */
  lemma NewNames(q: Request, cs: seq<C.Column>, x: Schema, same: Same)
    requires Equivalence(same) && PlainColumns(x.columns) && cs != []
    requires forall k :: 0 <= k < |cs| ==> cs[k] in x.columns
    ensures forall k :: 0 <= k < |R.NormIndex(NewIndex(q, cs)).columns| ==>
      HasColumn(x.columns, R.NormIndex(NewIndex(q, cs)).columns[k].name, same)
    ensures q.unique ==> forall n :: n in NamedBy(R.NormConstraint(NewConstraint(q, cs).value)) ==>
      HasColumn(x.columns, n, same)
  {
    hide UpToNul, HasColumn;
    forall k | 0 <= k < |cs|
      ensures UpToNul(cs[k].name) == cs[k].name && HasColumn(x.columns, cs[k].name, same)
    {
      OwnColumn(x.columns, cs[k], same);
    }
    NormNames(q, cs);
  }

  lemma OwnColumn(cs: seq<C.Column>, c: C.Column, same: Same)
    requires Equivalence(same) && PlainColumns(cs) && c in cs
    ensures UpToNul(c.name) == c.name && HasColumn(cs, c.name, same)
  {
    var j :| 0 <= j < |cs| && cs[j] == c;
    assert same(cs[j].name, c.name);
  }

  lemma NormNames(q: Request, cs: seq<C.Column>)
    requires cs != [] && forall k :: 0 <= k < |cs| ==> UpToNul(cs[k].name) == cs[k].name
    ensures var columns := R.NormIndex(NewIndex(q, cs)).columns;
      |columns| == |cs| && forall k :: 0 <= k < |cs| ==> columns[k].name == cs[k].name
    ensures q.unique ==> NamedBy(R.NormConstraint(NewConstraint(q, cs).value)) == [cs[0].name]
  {
    hide UpToNul;
    var r := NewIndex(q, cs);
    forall k | 0 <= k < |cs|
      ensures R.IndexColumnC().norm(r.columns[k]).name == cs[k].name
    {
    }
    if q.unique {
      var k := NewConstraint(q, cs).value;
      assert R.KeyColumnC().norm((cs[0].id, cs[0].name)) == (cs[0].id, cs[0].name);
      assert R.NormBody(k.body).columns == [(cs[0].id, cs[0].name)];
    }
  }

  lemma CreateIndexKeeps(x: Schema, q: Request, same: Same, usable: (seq<C.Column>, bool) -> bool)
    requires Consistent(x, same) && Equivalence(same) && CreateIndexOn(x, q, same, usable).Done?
    ensures Consistent(CreateIndexOn(x, q, same, usable).value, same)
  {
    hide NewIndex, NewConstraint, NamedBy, HasColumn, Equivalence, PlainColumns, PlanIndex, R.NormIndex,
        R.NormConstraint;
    var cs := PlanIndex(x, q, same, usable).value;
    Planned(x, q, same, usable);
    NewNames(q, cs, x, same);
    NewIds(q, cs);
    var r := R.NormIndex(NewIndex(q, cs));
    var y := SchemaWithIndex(x, NewIndex(q, cs), NewConstraint(q, cs));
    assert y.indexes == x.indexes + [r];
    forall m, k | 0 <= m < |y.indexes| && 0 <= k < |y.indexes[m].columns|
      ensures HasColumn(y.columns, y.indexes[m].columns[k].name, same)
    {
      if m < |x.indexes| { assert y.indexes[m] == x.indexes[m]; }
    }
    forall m | 0 <= m < |y.constraints| && y.constraints[m].body.KeyBody?
      ensures HasIndex(y.indexes, y.constraints[m].owner)
    {
      if m < |x.constraints| {
        assert y.constraints[m] == x.constraints[m];
        MoreIndexes(x.indexes, r, x.constraints[m].owner);
      } else {
        assert y.indexes[|x.indexes|].objectId == q.objectId;
      }
    }
  }

  lemma Planned(x: Schema, q: Request, same: Same, usable: (seq<C.Column>, bool) -> bool)
    requires PlanIndex(x, q, same, usable).Done?
    ensures var cs := PlanIndex(x, q, same, usable).value;
      cs != [] && forall k :: 0 <= k < |cs| ==> cs[k] in x.columns
  {
    hide R.IndexC, R.ConstraintC, Find;
  }

  lemma NewIds(q: Request, cs: seq<C.Column>)
    requires cs != []
    ensures R.NormIndex(NewIndex(q, cs)).objectId == q.objectId && (NewConstraint(q, cs).Some? <==> q.unique)
    ensures q.unique ==> R.NormConstraint(NewConstraint(q, cs).value).owner == q.objectId
  {
    hide UpToNul, NormList, R.IndexColumnC, R.KeyColumnC;
  }

  lemma MoreIndexes(rs: seq<R.IndexRecord>, r: R.IndexRecord, objectId: nat)
    requires HasIndex(rs, objectId)
    ensures HasIndex(rs + [r], objectId)
  {
    var j :| 0 <= j < |rs| && rs[j].objectId == objectId;
    assert (rs + [r])[j] == rs[j];
  }

  // -- runs of edits ----------------------------------------------------------------------------------------

  datatype Statement =
    | CreateIndexOf(request: Request)
    | DropIndexNamed(index: Name)
    | AddColumnOf(column: C.Column)
    | DropColumnNamed(name: Name)

  function EditOn(x: Schema, st: Statement, same: Same, usable: (seq<C.Column>, bool) -> bool): Edit<Schema>
  {
    match st
    case CreateIndexOf(q) => CreateIndexOn(x, q, same, usable)
    case DropIndexNamed(n) => DropIndexOn(x, n, same)
    case AddColumnOf(c) => AddColumnOn(x, c, same)
    case DropColumnNamed(n) => DropColumnOn(x, n, same)
  }

  /** The schema after a statement; a refused one leaves it. */
  function After(x: Schema, st: Statement, same: Same, usable: (seq<C.Column>, bool) -> bool): Schema
  {
    var r := EditOn(x, st, same, usable);
    if r.Done? then r.value else x
  }

  /** The counts leave room for what the statement adds. */
  predicate HasRoom(x: Schema, st: Statement)
  {
    match st
    case CreateIndexOf(q) => HasIndexRoom(x, q)
    case AddColumnOf(_) => |x.columns| < R.MAX_SCHEMA_COLUMNS
    case _ => true
  }

  function Replayed(x: Schema, sts: seq<Statement>, same: Same, usable: (seq<C.Column>, bool) -> bool): Schema
  {
    if sts == [] then x
    else After(Replayed(x, sts[..|sts| - 1], same, usable), sts[|sts| - 1], same, usable)
  }

  /** Every statement that is carried out finds room. */
  predicate AllRoom(x: Schema, sts: seq<Statement>, same: Same, usable: (seq<C.Column>, bool) -> bool)
  {
    forall i :: 0 <= i < |sts| ==>
      var y := Replayed(x, sts[..i], same, usable);
      EditOn(y, sts[i], same, usable).Done? ==> HasRoom(y, sts[i])
  }

  lemma EditKeeps(x: Schema, st: Statement, same: Same, usable: (seq<C.Column>, bool) -> bool)
    requires Consistent(x, same) && Equivalence(same)
    ensures Consistent(After(x, st, same, usable), same)
  {
    hide Consistent, Equivalence, CreateIndexOn, DropIndexOn, AddColumnOn, DropColumnOn;
    if EditOn(x, st, same, usable).Done? {
      match st
      case CreateIndexOf(q) => CreateIndexKeeps(x, q, same, usable);
      case DropIndexNamed(n) => DropIndexKeeps(x, n, same);
      case AddColumnOf(c) => AddColumnKeeps(x, c, same);
      case DropColumnNamed(n) => DropColumnKeeps(x, n, same);
    }
  }

  /** After any run of statements nothing in the schema refers to what is not there. */
  lemma {:induction false} RunKeeps(x: Schema, sts: seq<Statement>, same: Same, usable: (seq<C.Column>, bool) -> bool)
    requires Consistent(x, same) && Equivalence(same)
    ensures Consistent(Replayed(x, sts, same, usable), same)
  {
    hide Consistent, Equivalence, After;
    if sts != [] {
      RunKeeps(x, sts[..|sts| - 1], same, usable);
      EditKeeps(Replayed(x, sts[..|sts| - 1], same, usable), sts[|sts| - 1], same, usable);
    }
  }

  /** One statement, on the stream. */
  method Perform(data: Bytes, st: Statement, same: Same, usable: (seq<C.Column>, bool) -> bool) returns (r: Edit<Bytes>)
    requires ParseStream(data).Some?
    ensures Refines(r, EditOn(ParseStream(data).value, st, same, usable), HasRoom(ParseStream(data).value, st))
  {
    hide ParseStream, CreateIndexOn, DropIndexOn, AddColumnOn, DropColumnOn, PlanIndex, IndexDropped, IndexCreated,
      ColumnDropped, ColumnCreated;
    match st
    case CreateIndexOf(q) => r := CreateIndex(data, q, same, usable);
    case DropIndexNamed(n) => r := DropIndex(data, n, same);
    case AddColumnOf(c) => r := AddColumn(data, c, same);
    case DropColumnNamed(n) => r := DropColumn(data, n, same);
  }

  /** Any run of statements: the stream is read as the schema the statements make of it. */
  method Run(data: Bytes, sts: seq<Statement>, same: Same, usable: (seq<C.Column>, bool) -> bool)
    returns (out: Bytes)
    requires ParseStream(data).Some? && AllRoom(ParseStream(data).value, sts, same, usable)
    ensures ParseStream(out) == Some(Replayed(ParseStream(data).value, sts, same, usable))
  {
    hide ParseStream, EditOn, HasRoom;
    out := data;
    ghost var x := ParseStream(data).value;
    assert sts[..0] == [];
    for i := 0 to |sts|
      invariant ParseStream(out) == Some(Replayed(x, sts[..i], same, usable))
    {
      var r := Perform(out, sts[i], same, usable);
      assert sts[..i + 1][..i] == sts[..i];
      if r.Done? { out := r.value; }
    }
    assert sts[..|sts|] == sts;
  }

  /** No index record and no constraint refers to a column of this name. */
  lemma Unreferenced(x: Schema, name: Name, same: Same)
    requires Consistent(x, same) && Equivalence(same) && Find(ColumnNames(x.columns), name, same).None?
    ensures forall i :: 0 <= i < |x.indexes| ==> !Covers(x.indexes[i], name, same)
    ensures forall i :: 0 <= i < |x.constraints| ==> !Constrains(x.constraints[i], name, same)
  {
    hide Find, NamedBy, UpToNul, Equivalence;
    forall i | 0 <= i < |x.indexes|
      ensures !Covers(x.indexes[i], name, same)
    {
      forall k | 0 <= k < |x.indexes[i].columns|
        ensures !same(x.indexes[i].columns[k].name, name)
      {
        NotThere(x.columns, x.indexes[i].columns[k].name, name, same);
      }
    }
    forall i | 0 <= i < |x.constraints|
      ensures !Constrains(x.constraints[i], name, same)
    {
      forall n | n in NamedBy(x.constraints[i])
        ensures !same(n, name)
      {
        NotThere(x.columns, n, name, same);
      }
    }
  }

  lemma NotThere(cs: seq<C.Column>, n: Name, name: Name, same: Same)
    requires Equivalence(same) && HasColumn(cs, n, same) && Find(ColumnNames(cs), name, same).None?
    ensures !same(n, name)
  {
    hide Find;
    var j :| 0 <= j < |cs| && same(cs[j].name, n);
    assert ColumnNames(cs)[j] == cs[j].name;
  }

  /** ADD COLUMN, then DROP COLUMN of the same name: the stream is as it was, byte for byte. */
  method AddThenDrop(data: Bytes, c: C.Column, same: Same) returns (added: Edit<Bytes>, dropped: Edit<Bytes>)
    requires ParseStream(data).Some? && Consistent(ParseStream(data).value, same) && Equivalence(same)
    requires 0 < |ParseStream(data).value.columns| < R.MAX_SCHEMA_COLUMNS && UpToNul(c.name) == c.name
    ensures added.Refused? ==> dropped == added
    ensures added.Done? ==> dropped == Done(data)
  {
    hide ParseStream, Consistent, Equivalence, DropColumnOn, ColumnDropped, ColumnCreated, Find, C.ColumnC, UpToNul;
    ghost var x := ParseStream(data).value;
    added := AddColumn(data, c, same);
    if added.Refused? { return added, added; }
    Redropped(x, c, same);
    dropped := DropColumn(added.value, c.name, same);
    ColumnUndone(data, c);
  }

  lemma Redropped(x: Schema, c: C.Column, same: Same)
    requires AddColumnOn(x, c, same).Done? && Consistent(x, same) && Equivalence(same) && x.columns != []
    requires UpToNul(c.name) == c.name
    ensures var y := x.(columns := x.columns + [C.NormColumn(c)]);
      Find(ColumnNames(y.columns), c.name, same) == Some(|x.columns|) && DropColumnOn(y, c.name, same).Done?
  {
    hide Find, UpToNul, Consistent, NamedBy, C.ColumnC;
    var y := x.(columns := x.columns + [C.NormColumn(c)]);
    assert ColumnNames(y.columns) == ColumnNames(x.columns) + [c.name];
    FoundLast(ColumnNames(x.columns), c.name, c.name, same);
    Unreferenced(x, c.name, same);
  }

  // -- column names that differ -----------------------------------------------------------------------------

  /** No two columns have the same name. */
  ghost predicate Distinct(cs: seq<C.Column>, same: Same)
  {
    forall i, j :: 0 <= i < j < |cs| ==> !same(cs[i].name, cs[j].name)
  }

  /** ADD COLUMN looks for the whole name, and what comes back of it ends at its first NUL: names stay distinct exactly
      when no column has that shorter name. */
  lemma AddedDistinct(x: Schema, c: C.Column, same: Same)
    requires AddColumnOn(x, c, same).Done? && Distinct(x.columns, same)
    ensures Distinct(AddColumnOn(x, c, same).value.columns, same)
       <==> !HasColumn(x.columns, UpToNul(c.name), same)
  {
    hide UpToNul, C.ColumnC, HasBlobPages;
    var y := x.columns + [C.NormColumn(c)];
    if Distinct(y, same) {
      forall j | 0 <= j < |x.columns|
        ensures !same(x.columns[j].name, UpToNul(c.name))
      {
        assert y[j] == x.columns[j] && y[|x.columns|].name == UpToNul(c.name);
      }
    }
  }
}
