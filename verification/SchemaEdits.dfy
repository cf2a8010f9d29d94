/** CREATE and DROP INDEX, ADD and DROP COLUMN, as edits of the schema stream. */
module SchemaEdits {
  import opened Bits
  import opened Inflate
  import opened LittleEndian
  import opened TableCatalog
  import opened Codecs
  import opened SchemaFields
  import opened SchemaStream
  import R = SchemaRecords
  import C = SchemaColumns

  // -- one stretch changed --------------------------------------------------------------------------------

  /** Where record i of a stretch starts and ends. */
  ghost predicate Bounds<A(!new)>(c: Codec<A>, i: nat, body: Bytes, k: nat, l: nat)
  {
    && ReadList(c, i, body).Got? && ReadList(c, i + 1, body).Got?
    && k == StartOf(c, i, body) && l == StartOf(c, i + 1, body) && k <= l <= |body|
  }

  function CutOut(body: Bytes, k: nat, l: nat): Bytes
    requires k <= l <= |body|
  {
    body[..k] + body[l..]
  }

  lemma RecordCut<A(!new)>(c: Codec<A>, n: nat, i: nat, body: Bytes, k: nat, l: nat)
    requires Lawful(c) && ReadList(c, n, body).Got? && ReadList(c, n, body).size == |body| && i < n
    requires Bounds(c, i, body, k, l)
    ensures |ReadList(c, n, body).value| == n
    ensures ReadList(c, n - 1, CutOut(body, k, l)) == Got(Without(ReadList(c, n, body).value, i), |CutOut(body, k, l)|)
  {
    hide Lawful, ReadList;
    ListWithout(c, n, i, body);
  }

  /** The pieces without the record at bytes k to l. */
  function IndexRemoved(p: Pieces, k: nat, l: nat): Pieces
    requires p.indexCount > 0 && k <= l <= |p.indexes|
  {
    p.(indexCount := p.indexCount - 1, indexes := CutOut(p.indexes, k, l))
  }

  lemma IndexCut(p: Pieces, x: Schema, i: nat, k: nat, l: nat)
    requires Counts32(p) && InLimits(p) && Holds(p, x) && i < p.indexCount && k <= l <= |p.indexes|
    requires Bounds(R.IndexC(), i, p.indexes, k, l)
    ensures |x.indexes| == p.indexCount
    ensures ParseStream(Assemble(IndexRemoved(p, k, l))) == Some(x.(indexes := Without(x.indexes, i)))
  {
    hide Lawful, ReadList, Bounds, Assemble, ParseStream, C.ColumnC, R.IndexC, R.ConstraintC;
    ArraysLawful();
    RecordCut(R.IndexC(), p.indexCount, i, p.indexes, k, l);
    Parsed(IndexRemoved(p, k, l), x.(indexes := Without(x.indexes, i)));
  }

  /** The pieces without the record at bytes k to l. */
  function ColumnRemoved(p: Pieces, k: nat, l: nat): Pieces
    requires p.columnCount > 0 && k <= l <= |p.columns|
  {
    p.(columnCount := p.columnCount - 1, columns := CutOut(p.columns, k, l))
  }

  lemma ColumnCut(p: Pieces, x: Schema, i: nat, k: nat, l: nat)
    requires Counts32(p) && InLimits(p) && Holds(p, x) && i < p.columnCount && k <= l <= |p.columns|
    requires Bounds(C.ColumnC(), i, p.columns, k, l)
    ensures |x.columns| == p.columnCount
    ensures ParseStream(Assemble(ColumnRemoved(p, k, l))) == Some(x.(columns := Without(x.columns, i)))
  {
    hide Lawful, ReadList, Bounds, Assemble, ParseStream, C.ColumnC, R.IndexC, R.ConstraintC;
    ArraysLawful();
    RecordCut(C.ColumnC(), p.columnCount, i, p.columns, k, l);
    Parsed(ColumnRemoved(p, k, l), x.(columns := Without(x.columns, i)));
  }

  /** The pieces with a column definition behind the others. */
  function ColumnAdded(p: Pieces, c: C.Column): Pieces
  {
    p.(columnCount := p.columnCount + 1, columns := p.columns + C.ColumnC().write(c))
  }

  lemma ColumnBehind(p: Pieces, x: Schema, c: C.Column)
    requires Counts32(p) && InLimits(p) && Holds(p, x) && C.WritableColumn(c)
    ensures ParseStream(Assemble(ColumnAdded(p, c)))
         == if p.columnCount < R.MAX_SCHEMA_COLUMNS then Some(x.(columns := x.columns + [C.NormColumn(c)])) else None
  {
    hide Lawful, ReadList, Assemble, ParseStream, C.ColumnC, R.IndexC, R.ConstraintC;
    ArraysLawful();
    C.ColumnSound(c);
    C.ColumnAccepted(c);
    ListWith(C.ColumnC(), p.columnCount, p.columns, c);
    ColumnNorm(c);
    Parsed(ColumnAdded(p, c), x.(columns := x.columns + [C.NormColumn(c)]));
  }

  lemma ColumnNorm(c: C.Column)
    ensures C.ColumnC().norm(c) == C.NormColumn(c)
  {
  }

  /** The pieces with an index record behind the others and, for a unique index, a constraint record. */
  function IndexAdded(p: Pieces, r: R.IndexRecord, k: Option<R.Constraint>): Pieces
  {
    var q := p.(indexCount := p.indexCount + 1, indexes := p.indexes + R.IndexC().write(r));
    if k.None? then q
    else q.(constraintCount := p.constraintCount + 1, constraints := p.constraints + R.ConstraintC().write(k.value))
  }

  function SchemaWithIndex(x: Schema, r: R.IndexRecord, k: Option<R.Constraint>): Schema
  {
    x.(indexes := x.indexes + [R.NormIndex(r)],
       constraints := if k.None? then x.constraints else x.constraints + [R.NormConstraint(k.value)])
  }

  /** There is a count left for one more record of each kind. */
  predicate IndexRoom(x: Schema, k: Option<R.Constraint>)
  {
    |x.indexes| < MAX_COUNT && (k.Some? ==> |x.constraints| < MAX_COUNT)
  }

  lemma IndexBehind(p: Pieces, x: Schema, r: R.IndexRecord, k: Option<R.Constraint>)
    requires Counts32(p) && InLimits(p) && Holds(p, x) && R.WritableIndex(r)
    requires k.Some? ==> R.WritableConstraint(k.value) && k.value.body.KeyBody?
    ensures ParseStream(Assemble(IndexAdded(p, r, k)))
         == if IndexRoom(x, k) then Some(SchemaWithIndex(x, r, k)) else None
  {
    hide ReadList, Assemble, ParseStream, Holds, C.ColumnC, R.IndexC, R.ConstraintC, R.WritableIndex,
        R.WritableConstraint;
    Lengths(p, x);
    IndexHeld(p, x, r, k);
    Parsed(IndexAdded(p, r, k), SchemaWithIndex(x, r, k));
  }

  lemma IndexHeld(p: Pieces, x: Schema, r: R.IndexRecord, k: Option<R.Constraint>)
    requires Holds(p, x) && R.WritableIndex(r)
    requires k.Some? ==> R.WritableConstraint(k.value) && k.value.body.KeyBody?
    ensures Holds(IndexAdded(p, r, k), SchemaWithIndex(x, r, k))
  {
    hide ReadList, C.ColumnC, R.IndexC, R.ConstraintC, R.WritableIndex, R.WritableConstraint;
    RecordNorms(r, k);
    IndexRead(p, x, r);
    if k.Some? { ConstraintRead(p, x, k.value); }
  }

  lemma IndexRead(p: Pieces, x: Schema, r: R.IndexRecord)
    requires Holds(p, x) && R.WritableIndex(r)
    ensures var w := R.IndexC().write(r);
      ReadList(R.IndexC(), p.indexCount + 1, p.indexes + w)
      == Got(x.indexes + [R.IndexC().norm(r)], |p.indexes| + |w|)
  {
    hide Lawful, ReadList, C.ColumnC, R.IndexC, R.ConstraintC, R.WritableIndex;
    ArraysLawful();
    R.IndexSound(r);
    R.IndexAccepted(r);
    ListWith(R.IndexC(), p.indexCount, p.indexes, r);
  }

  lemma ConstraintRead(p: Pieces, x: Schema, k: R.Constraint)
    requires Holds(p, x) && R.WritableConstraint(k) && k.body.KeyBody?
    ensures var w := R.ConstraintC().write(k);
      ReadList(R.ConstraintC(), p.constraintCount + 1, p.constraints + w)
      == Got(x.constraints + [R.ConstraintC().norm(k)], |p.constraints| + |w|)
  {
    hide Lawful, ReadList, C.ColumnC, R.IndexC, R.ConstraintC, R.WritableConstraint;
    ArraysLawful();
    R.ConstraintAccepted(k);
    R.ConstraintComesBack(k);
    ListWith(R.ConstraintC(), p.constraintCount, p.constraints, k);
  }

  lemma RecordNorms(r: R.IndexRecord, k: Option<R.Constraint>)
    ensures R.IndexC().norm(r) == R.NormIndex(r)
    ensures k.Some? ==> R.ConstraintC().norm(k.value) == R.NormConstraint(k.value)
  {
  }

  lemma Lengths(p: Pieces, x: Schema)
    requires Holds(p, x)
    ensures |x.columns| == p.columnCount && |x.indexes| == p.indexCount && |x.constraints| == p.constraintCount
  {
    hide Lawful, ReadList, C.ColumnC, R.IndexC, R.ConstraintC;
    ArraysLawful();
    ListLocal(C.ColumnC(), p.columnCount, p.columns, []);
    ListLocal(R.IndexC(), p.indexCount, p.indexes, []);
    ListLocal(R.ConstraintC(), p.constraintCount, p.constraints, []);
  }

  // -- the stream, taken apart ----------------------------------------------------------------------------

  /** Where the records of the three arrays lie. */
  datatype Tail = Tail(columns: seq<Entry<C.Column>>, columnsEnd: nat, indexes: seq<Entry<R.IndexRecord>>,
                       tailStart: nat, constraints: seq<Entry<R.Constraint>>)

  /** Record i of a stretch that starts at `base`. */
  ghost predicate EntryAt<A(!new)>(c: Codec<A>, body: Bytes, base: nat, e: Entry<A>, i: nat, v: A)
  {
    e.value == v && base <= e.start <= e.end <= base + |body| && Bounds(c, i, body, e.start - base, e.end - base)
  }

  ghost predicate Entries<A(!new)>(c: Codec<A>, body: Bytes, base: nat, es: seq<Entry<A>>, vs: seq<A>)
  {
    |es| == |vs| && forall i :: 0 <= i < |es| ==> EntryAt(c, body, base, es[i], i, vs[i])
  }

  lemma SameStart<A(!new)>(c: Codec<A>, n: nat, i: nat, body: Bytes, t: Bytes)
    requires Lawful(c) && ReadList(c, n, body).Got? && i <= n
    ensures ReadList(c, i, body).Got? && ReadList(c, i, body + t) == ReadList(c, i, body)
    ensures |ReadList(c, n, body).value| == n && ReadList(c, i, body).value == ReadList(c, n, body).value[..i]
    ensures StartOf(c, i, body) <= StartOf(c, n, body) <= |body|
  {
    hide Lawful, ReadList;
    Starts(c, n, i, body);
    var k := StartOf(c, i, body);
    ListLocal(c, i, body, body[k..] + t);
    assert body[..k] + (body[k..] + t) == body + t;
  }

  lemma SpanDescribes<A(!new)>(c: Codec<A>, data: Bytes, pos: nat, e: Entry<A>, i: nat, n: nat, body: Bytes, t: Bytes)
    requires Lawful(c) && ReadList(c, n, body).Got? && i < n && pos <= |data| && data[pos..] == body + t
    requires SpanAt(c, data, pos, e, i)
    ensures |ReadList(c, n, body).value| == n && EntryAt(c, body, pos, e, i, ReadList(c, n, body).value[i])
  {
    hide Lawful, ReadList;
    SameStart(c, n, i, body, t);
    SameStart(c, n, i + 1, body, t);
    SameStart(c, i + 1, i, body, t);
  }

  lemma SpansDescribe<A(!new)>(c: Codec<A>, data: Bytes, pos: nat, es: seq<Entry<A>>, end: nat, n: nat, body: Bytes,
                               t: Bytes)
    requires Lawful(c) && ReadList(c, n, body).Got? && ReadList(c, n, body).size == |body|
    requires pos <= |data| && data[pos..] == body + t && |es| == n && Spans(c, data, pos, es, end)
    ensures Entries(c, body, pos, es, ReadList(c, n, body).value) && end == pos + |body|
  {
    hide Lawful, ReadList, SpanAt, EntryAt;
    SameStart(c, n, n, body, t);
    forall i | 0 <= i < n
      ensures EntryAt(c, body, pos, es[i], i, ReadList(c, n, body).value[i])
    {
      SpanDescribes(c, data, pos, es[i], i, n, body, t);
    }
  }

  ghost predicate Describes(t: Tail, s: Bytes, p: Pieces, x: Schema)
  {
    && Counts32(p) && InLimits(p) && Assemble(p) == s && Holds(p, x)
    && t.columnsEnd == ColumnsEnd(p) && t.tailStart == TailStart(p)
    && Entries(C.ColumnC(), p.columns, 4, t.columns, x.columns)
    && Entries(R.IndexC(), p.indexes, IndexesStart(p), t.indexes, x.indexes)
    && Entries(R.ConstraintC(), p.constraints, ConstraintsStart(p), t.constraints, x.constraints)
  }

  /** The records of an array that lies in the stream as `body`, behind its count. */
  lemma ArrayDescribes<A(!new)>(c: Codec<A>, data: Bytes, at: nat, es: seq<Entry<A>>, end: nat, n: nat, body: Bytes,
                                t: Bytes)
    requires Lawful(c) && ReadList(c, n, body).Got? && ReadList(c, n, body).size == |body| && n < 0x1_0000_0000
    requires at + 4 <= |data| && data[at..] == Le32(n) + (body + t)
    requires |es| == ReadLe32(data, at) && Spans(c, data, at + 4, es, end)
    ensures Entries(c, body, at + 4, es, ReadList(c, n, body).value) && end == at + 4 + |body|
  {
    hide Lawful, ReadList, Spans, Entries, Le32, ReadLe32;
    CountRead(n, body + t);
    CountAt(data, at);
    assert data[at..][4..] == data[at + 4..];
    SpansDescribe(c, data, at + 4, es, end, n, body, t);
  }

  /** The three arrays, one after the other, and exactly the page numbers behind them. */
  method ParseSchemaTail(data: Bytes) returns (ok: bool, t: Tail, ghost p: Pieces)
    ensures ok <==> ParseStream(data).Some?
    ensures ok ==> Describes(t, data, p, ParseStream(data).value)
  {
    hide Lawful, AtLeast, ReadList, ReadCounted, Spans, Describes, C.ColumnC, R.IndexC, R.ConstraintC, ReadLe32;
    ArraysLawful();
    t, p := Tail([], 0, [], 0, []), Pieces(0, [], 0, [], 0, [], []);
    assert data[0..] == data;
    var has, columns, columnsEnd := ParseArray(COLUMN_LIMITS, C.ColumnC(), data, 0);
    if !has { return false, t, p; }
    var some, indexes, tailStart := ParseArray(ARRAY_LIMITS, R.IndexC(), data, columnsEnd);
    if !some { return false, t, p; }
    assert data[columnsEnd..][tailStart - columnsEnd..] == data[tailStart..];
    var rest, constraints, end := ParseArray(ARRAY_LIMITS, R.ConstraintC(), data, tailStart);
    if !rest || |data| - end != ROOTS_SIZE { return false, t, p; }
    p := Taken(data);
    ok, t := true, Tail(columns, columnsEnd, indexes, tailStart, constraints);
    TailDescribed(data, p, t, end);
  }

  lemma TailDescribed(data: Bytes, p: Pieces, t: Tail, end: nat)
    requires Counts32(p) && InLimits(p) && Assemble(p) == data && ParseStream(data).Some?
    requires Holds(p, ParseStream(data).value)
    requires t.columnsEnd == ColumnsEnd(p) && t.tailStart == TailStart(p)
    requires |t.columns| == ReadLe32(data, 0) && Spans(C.ColumnC(), data, 4, t.columns, t.columnsEnd)
    requires |t.indexes| == ReadLe32(data, t.columnsEnd)
    requires Spans(R.IndexC(), data, t.columnsEnd + 4, t.indexes, t.tailStart)
    requires |t.constraints| == ReadLe32(data, t.tailStart)
    requires Spans(R.ConstraintC(), data, t.tailStart + 4, t.constraints, end)
    ensures Describes(t, data, p, ParseStream(data).value)
  {
    hide Lawful, AtLeast, ReadList, Spans, Entries, ParseStream, C.ColumnC, R.IndexC, R.ConstraintC, Le32, ReadLe32;
    ArraysLawful();
    Offsets(p);
    assert data[0..] == data;
    ArrayDescribes(C.ColumnC(), data, 0, t.columns, t.columnsEnd, p.columnCount, p.columns, TailBytes(p));
    ArrayDescribes(R.IndexC(), data, t.columnsEnd, t.indexes, t.tailStart, p.indexCount, p.indexes, ConstraintBytes(p));
    ArrayDescribes(R.ConstraintC(), data, t.tailStart, t.constraints, end, p.constraintCount, p.constraints, p.roots);
  }

  // -- the edits, as functions of the stream ---------------------------------------------------------------

  lemma RecordBounds<A(!new)>(c: Codec<A>, n: nat, i: nat, body: Bytes)
    requires Lawful(c) && ReadList(c, n, body).Got? && i < n
    ensures ReadList(c, i, body).Got? && ReadList(c, i + 1, body).Got?
    ensures StartOf(c, i, body) <= StartOf(c, i + 1, body) <= |body|
  {
    hide Lawful, ReadList;
    Starts(c, n, i + 1, body);
    Starts(c, i + 1, i, body);
  }

  lemma IndexBounds(p: Pieces, s: Bytes, i: nat)
    requires PiecesAre(p, s) && i < |ParseStream(s).value.indexes|
    ensures 0 < p.indexCount && ReadList(R.IndexC(), i, p.indexes).Got? && ReadList(R.IndexC(), i + 1, p.indexes).Got?
    ensures StartOf(R.IndexC(), i, p.indexes) <= StartOf(R.IndexC(), i + 1, p.indexes) <= |p.indexes|
  {
    hide Lawful, ReadList, ParseStream, C.ColumnC, R.IndexC, R.ConstraintC;
    ArraysLawful();
    Lengths(p, ParseStream(s).value);
    RecordBounds(R.IndexC(), p.indexCount, i, p.indexes);
  }

  lemma ColumnBounds(p: Pieces, s: Bytes, i: nat)
    requires PiecesAre(p, s) && i < |ParseStream(s).value.columns|
    ensures 0 < p.columnCount && ReadList(C.ColumnC(), i, p.columns).Got?
    ensures ReadList(C.ColumnC(), i + 1, p.columns).Got?
    ensures StartOf(C.ColumnC(), i, p.columns) <= StartOf(C.ColumnC(), i + 1, p.columns) <= |p.columns|
  {
    hide Lawful, ReadList, ParseStream, C.ColumnC, R.IndexC, R.ConstraintC;
    ArraysLawful();
    Lengths(p, ParseStream(s).value);
    RecordBounds(C.ColumnC(), p.columnCount, i, p.columns);
  }

  /** The stream without index record i. */
  ghost function IndexDropped(s: Bytes, i: nat): Bytes
    requires ParseStream(s).Some? && i < |ParseStream(s).value.indexes|
  {
    var p := PiecesOf(s);
    IndexBounds(p, s, i);
    Assemble(IndexRemoved(p, StartOf(R.IndexC(), i, p.indexes), StartOf(R.IndexC(), i + 1, p.indexes)))
  }

  /** The stream with an index record, and perhaps a constraint record, behind the others. */
  ghost function IndexCreated(s: Bytes, r: R.IndexRecord, k: Option<R.Constraint>): Bytes
    requires ParseStream(s).Some?
  {
    Assemble(IndexAdded(PiecesOf(s), r, k))
  }

  /** The stream without column i. */
  ghost function ColumnDropped(s: Bytes, i: nat): Bytes
    requires ParseStream(s).Some? && i < |ParseStream(s).value.columns|
  {
    var p := PiecesOf(s);
    ColumnBounds(p, s, i);
    Assemble(ColumnRemoved(p, StartOf(C.ColumnC(), i, p.columns), StartOf(C.ColumnC(), i + 1, p.columns)))
  }

  /** The stream with a column behind the others. */
  ghost function ColumnCreated(s: Bytes, c: C.Column): Bytes
    requires ParseStream(s).Some?
  {
    Assemble(ColumnAdded(PiecesOf(s), c))
  }

  lemma DroppedIs(p: Pieces, s: Bytes, i: nat, k: nat, l: nat)
    requires ParseStream(s).Some? && PiecesAre(p, s) && i < |ParseStream(s).value.indexes|
    requires k <= l <= |p.indexes| && Bounds(R.IndexC(), i, p.indexes, k, l)
    ensures 0 < p.indexCount && IndexDropped(s, i) == Assemble(IndexRemoved(p, k, l))
  {
    hide ReadList, PiecesAre, ParseStream, R.IndexC;
    OnePieces(p, PiecesOf(s), s);
    IndexBounds(p, s, i);
    assert Counts32(p) by { PiecesCounted(p, s); }
  }

  lemma ColumnDroppedIs(p: Pieces, s: Bytes, i: nat, k: nat, l: nat)
    requires ParseStream(s).Some? && PiecesAre(p, s) && i < |ParseStream(s).value.columns|
    requires k <= l <= |p.columns| && Bounds(C.ColumnC(), i, p.columns, k, l)
    ensures 0 < p.columnCount && ColumnDropped(s, i) == Assemble(ColumnRemoved(p, k, l))
  {
    hide ReadList, PiecesAre, ParseStream, C.ColumnC;
    OnePieces(p, PiecesOf(s), s);
    ColumnBounds(p, s, i);
    assert Counts32(p) by { PiecesCounted(p, s); }
  }

  lemma PiecesCounted(p: Pieces, s: Bytes)
    requires PiecesAre(p, s)
    ensures Counts32(p) && InLimits(p)
  {
    hide ParseStream, Holds, Assemble;
  }

  // -- what the statements do to a schema -------------------------------------------------------------------

  datatype Refusal = NotUnderstood | NoSuchIndex | BacksConstraint | IndexExists | NoSuchColumn | NotIndexable
                   | ColumnExists | NotWritable | LastColumn | ColumnIndexed | ColumnConstrained | HasBlobs

  datatype Edit<+T> = Done(value: T) | Refused(why: Refusal)

  /** How names are compared; the file compares them without regard to case. */
  type Same = (Name, Name) -> bool

  /** The first of the names that is the wanted one. */
  function Find(names: seq<Name>, wanted: Name, same: Same): (r: Option<nat>)
    ensures r.None? ==> forall i :: 0 <= i < |names| ==> !same(names[i], wanted)
    ensures r.Some? ==> r.value < |names| && same(names[r.value], wanted)
    ensures r.Some? ==> forall i :: 0 <= i < r.value ==> !same(names[i], wanted)
  {
    if names == [] then None
    else if same(names[0], wanted) then Some(0)
    else
      var r := Find(names[1..], wanted, same);
      if r.None? then None else Some(r.value + 1)
  }

  function ColumnNames(cs: seq<C.Column>): (r: seq<Name>)
    ensures |r| == |cs| && forall i :: 0 <= i < |r| ==> r[i] == cs[i].name
  {
    seq(|cs|, i requires 0 <= i < |cs| => cs[i].name)
  }

  function IndexNames(rs: seq<R.IndexRecord>): (r: seq<Name>)
    ensures |r| == |rs| && forall i :: 0 <= i < |r| ==> r[i] == rs[i].name
  {
    seq(|rs|, i requires 0 <= i < |rs| => rs[i].name)
  }

  predicate Covers(r: R.IndexRecord, column: Name, same: Same)
  {
    exists k :: 0 <= k < |r.columns| && same(r.columns[k].name, column)
  }

  /** The columns a constraint names. */
  function NamedBy(k: R.Constraint): seq<Name>
  {
    match k.body
    case KeyBody(_, _, cs) => seq(|cs|, i requires 0 <= i < |cs| => cs[i].1)
    case ColumnBody(_, c) => [c]
    case CheckBody(_, c, _, _) => [c]
  }

  predicate Constrains(k: R.Constraint, column: Name, same: Same)
  {
    exists n :: n in NamedBy(k) && same(n, column)
  }

  /** The index implements a constraint: by its own flags, or as the owner some constraint names. */
  predicate Backs(x: Schema, r: R.IndexRecord)
  {
    r.primary || r.unique || exists k :: 0 <= k < |x.constraints| && x.constraints[k].owner == r.objectId
  }

  function DropIndexOn(x: Schema, index: Name, same: Same): Edit<Schema>
  {
    match Find(IndexNames(x.indexes), index, same)
    case None => Refused(NoSuchIndex)
    case Some(i) =>
      if Backs(x, x.indexes[i]) then Refused(BacksConstraint)
      else Done(x.(indexes := Without(x.indexes, i)))
  }

  /** A CREATE INDEX: its name, the columns it is to cover, its flags, object id and root page. */
  datatype Request = Request(index: Name, columns: seq<Name>, unique: bool, nocase: bool, objectId: nat, root: nat)

  function Resolve(cs: seq<C.Column>, names: seq<Name>, same: Same): (r: Option<seq<C.Column>>)
    ensures r.Some? ==> |r.value| == |names| && forall k :: 0 <= k < |names| ==> r.value[k] in cs
  {
    if names == [] then Some([])
    else
      var first, rest := Find(ColumnNames(cs), names[0], same), Resolve(cs, names[1..], same);
      if first.None? || rest.None? then None else Some([cs[first.value]] + rest.value)
  }

  /** "C_Unique$" */
  const UNIQUE_PREFIX: Name := [67, 95, 85, 110, 105, 113, 117, 101, 36]

  function NewIndex(q: Request, cs: seq<C.Column>): R.IndexRecord
  {
    R.IndexRecord(q.index, q.objectId, q.unique, false, q.root,
                  seq(|cs|, i requires 0 <= i < |cs| => R.IndexColumn(cs[i].name, false, q.nocase)))
  }

  function NewConstraint(q: Request, cs: seq<C.Column>): Option<R.Constraint>
    requires q.unique ==> cs != []
  {
    if !q.unique then None
    else Some(R.Constraint(R.UNIQUE, UNIQUE_PREFIX + cs[0].name, q.objectId + 1, q.objectId,
                           R.KeyBody([], q.index, [(cs[0].id, cs[0].name)])))
  }

  /** The columns a request covers, or why it is refused; `usable` says which columns an index can be built on. */
  function PlanIndex(x: Schema, q: Request, same: Same, usable: (seq<C.Column>, bool) -> bool): Edit<seq<C.Column>>
  {
    match Resolve(x.columns, q.columns, same)
    case None => Refused(NoSuchColumn)
    case Some(cs) =>
      if cs == [] || |cs| > R.MAX_SCHEMA_COLUMNS || !usable(cs, q.nocase) then Refused(NotIndexable)
      else if Find(IndexNames(x.indexes), q.index, same).Some? then Refused(IndexExists)
      else if q.unique && |cs| > 1 then Refused(NotIndexable)
      else if !R.WritableIndex(NewIndex(q, cs)) then Refused(NotWritable)
      else if q.unique && !R.WritableConstraint(NewConstraint(q, cs).value) then Refused(NotWritable)
      else Done(cs)
  }

  function CreateIndexOn(x: Schema, q: Request, same: Same, usable: (seq<C.Column>, bool) -> bool): Edit<Schema>
  {
    match PlanIndex(x, q, same, usable)
    case Refused(w) => Refused(w)
    case Done(cs) => Done(SchemaWithIndex(x, NewIndex(q, cs), NewConstraint(q, cs)))
  }

  /** The second of the two page numbers names a page: the table has BLOB pages. */
  predicate HasBlobPages(x: Schema)
  {
    |x.roots| == ROOTS_SIZE && ReadInt32(x.roots, 4) >= 0
  }

  function AddColumnOn(x: Schema, c: C.Column, same: Same): Edit<Schema>
  {
    if HasBlobPages(x) then Refused(HasBlobs)
    else if Find(ColumnNames(x.columns), c.name, same).Some? then Refused(ColumnExists)
    else if !C.WritableColumn(c) then Refused(NotWritable)
    else Done(x.(columns := x.columns + [C.NormColumn(c)]))
  }

  function DropColumnOn(x: Schema, column: Name, same: Same): Edit<Schema>
  {
    if HasBlobPages(x) then Refused(HasBlobs)
    else if exists i :: 0 <= i < |x.indexes| && Covers(x.indexes[i], column, same) then Refused(ColumnIndexed)
    else if exists i :: 0 <= i < |x.constraints| && Constrains(x.constraints[i], column, same)
      then Refused(ColumnConstrained)
    else
      match Find(ColumnNames(x.columns), column, same)
      case None => Refused(NoSuchColumn)
      case Some(i) =>
        if |x.columns| == 1 then Refused(LastColumn) else Done(x.(columns := Without(x.columns, i)))
  }

  /** A column can be added: there are no BLOB pages, no column has its name, and its definition can be written. */
  ghost predicate Addable(x: Schema, c: C.Column, same: Same)
  {
    !HasBlobPages(x) && C.WritableColumn(c) && forall d :: d in x.columns ==> !same(d.name, c.name)
  }

  /** A column can be dropped: there are no BLOB pages, it is there and is not the only one, no index covers it and no
      constraint names it. */
  ghost predicate Droppable(x: Schema, column: Name, same: Same)
  {
    && !HasBlobPages(x) && |x.columns| != 1 && (exists d :: d in x.columns && same(d.name, column))
    && (forall r :: r in x.indexes ==> !Covers(r, column, same))
    && forall k :: k in x.constraints ==> !Constrains(k, column, same)
  }

  /** A column is added exactly when it can be, behind the others, and nothing else changes. */
  lemma AddEdits(x: Schema, c: C.Column, same: Same)
    ensures AddColumnOn(x, c, same).Done? <==> Addable(x, c, same)
    ensures AddColumnOn(x, c, same).Done? ==>
      AddColumnOn(x, c, same).value == Schema(x.columns + [C.NormColumn(c)], x.indexes, x.constraints, x.roots)
  {
    hide Find, HasBlobPages, C.WritableColumn, C.NormColumn;
    var found := Find(ColumnNames(x.columns), c.name, same);
    if found.Some? { assert x.columns[found.value] in x.columns; }
  }

  /** A column is dropped exactly when it can be: the first of that name, and nothing else changes. */
  lemma DropEdits(x: Schema, column: Name, same: Same)
    ensures DropColumnOn(x, column, same).Done? <==> Droppable(x, column, same)
    ensures DropColumnOn(x, column, same).Done? ==> exists i: nat ::
      && FirstNamed(x.columns, i, column, same)
      && DropColumnOn(x, column, same).value == x.(columns := Without(x.columns, i))
  {
    hide Find, HasBlobPages, Covers, Constrains;
    FindFirst(x.columns, column, same);
    var found := Find(ColumnNames(x.columns), column, same);
    if found.Some? { assert x.columns[found.value] in x.columns; }
    assert forall i :: 0 <= i < |x.indexes| ==> x.indexes[i] in x.indexes;
    assert forall i :: 0 <= i < |x.constraints| ==> x.constraints[i] in x.constraints;
  }

  // -- what they do to the stream ---------------------------------------------------------------------------

  /** Bytes edited as the schema is: refused alike, and read as the new schema exactly when there is room. */
  ghost predicate Refines(r: Edit<Bytes>, spec: Edit<Schema>, room: bool)
  {
    match spec
    case Refused(w) => r == Refused(w)
    case Done(y) => r.Done? && ParseStream(r.value) == if room then Some(y) else None
  }

  /** Up to the end of the columns nothing changes, then a new index count and the rest. */
  function SpliceIndexRecord(data: Bytes, columnsEnd: nat, newCount: nat, rest: Bytes): Bytes
    requires columnsEnd <= |data| && newCount < 0x1_0000_0000
  {
    data[..columnsEnd] + Le32(newCount) + rest
  }

  function Values<A>(es: seq<Entry<A>>): (vs: seq<A>)
    ensures |vs| == |es| && forall i :: 0 <= i < |es| ==> vs[i] == es[i].value
  {
    seq(|es|, i requires 0 <= i < |es| => es[i].value)
  }

  lemma TailValues(t: Tail, s: Bytes, p: Pieces, x: Schema)
    requires Describes(t, s, p, x)
    ensures Values(t.columns) == x.columns && Values(t.indexes) == x.indexes && Values(t.constraints) == x.constraints
    ensures |t.indexes| == p.indexCount && |t.columns| == p.columnCount && |t.constraints| == p.constraintCount
    ensures t.columnsEnd == ColumnsEnd(p) && t.tailStart == TailStart(p)
    ensures Counts32(p) && InLimits(p) && Assemble(p) == s && Holds(p, x) && LaidOut(p, s)
  {
    hide ReadList, Bounds, LaidOut, C.ColumnC, R.IndexC, R.ConstraintC, Assemble;
    Lengths(p, x);
    Offsets(p);
  }

  /** The stream with the index record between two offsets left out, and a lower count. */
  function IndexLeftOut(s: Bytes, columnsEnd: nat, count: nat, start: nat, end: nat, tailStart: nat): Bytes
    requires 0 < count <= MAX_COUNT && columnsEnd + 4 <= start <= end <= tailStart <= |s|
  {
    SpliceIndexRecord(s, columnsEnd, count - 1, s[columnsEnd + 4..start] + s[end..tailStart] + s[tailStart..])
  }

  lemma DescribedPieces(t: Tail, s: Bytes, p: Pieces, x: Schema)
    requires ParseStream(s) == Some(x) && Describes(t, s, p, x)
    ensures PiecesAre(p, s)
  {
    hide ParseStream, Holds, Entries;
  }

  predicate IndexInOrder(t: Tail, i: nat, n: nat)
  {
    i < |t.indexes| <= MAX_COUNT && t.columnsEnd + 4 <= t.indexes[i].start <= t.indexes[i].end <= t.tailStart <= n
  }

  lemma IndexOrdered(t: Tail, s: Bytes, p: Pieces, x: Schema, i: nat)
    requires Describes(t, s, p, x) && i < |t.indexes|
    ensures IndexInOrder(t, i, |s|)
  {
    hide ReadList, Bounds, Holds, C.ColumnC, R.IndexC, R.ConstraintC, Assemble, Le32, LaidOut;
    TailValues(t, s, p, x);
    LaidOutLength(p, s);
    assert EntryAt(R.IndexC(), p.indexes, IndexesStart(p), t.indexes[i], i, x.indexes[i]);
  }

  lemma LaidOutLength(p: Pieces, s: Bytes)
    requires Counts32(p) && LaidOut(p, s)
    ensures |s| == ConstraintsStart(p) + |p.constraints| + |p.roots|
  {
  }

  lemma IndexSpliced(t: Tail, s: Bytes, p: Pieces, x: Schema, i: nat)
    requires ParseStream(s) == Some(x) && Describes(t, s, p, x) && i < |x.indexes| && IndexInOrder(t, i, |s|)
    ensures IndexLeftOut(s, t.columnsEnd, |t.indexes|, t.indexes[i].start, t.indexes[i].end, t.tailStart)
         == IndexDropped(s, i)
    ensures ParseStream(IndexLeftOut(s, t.columnsEnd, |t.indexes|, t.indexes[i].start, t.indexes[i].end, t.tailStart))
         == Some(x.(indexes := Without(x.indexes, i)))
  {
    hide ReadList, Bounds, Holds, LaidOut, ParseStream, C.ColumnC, R.IndexC, R.ConstraintC, Assemble, IndexLeftOut;
    TailValues(t, s, p, x);
    var e := t.indexes[i];
    assert EntryAt(R.IndexC(), p.indexes, IndexesStart(p), e, i, x.indexes[i]);
    var k, l := e.start - IndexesStart(p), e.end - IndexesStart(p);
    IndexCut(p, x, i, k, l);
    RemovedBytes(p, s, k, l);
    DescribedPieces(t, s, p, x);
    DroppedIs(p, s, i, k, l);
  }

  lemma RemovedBytes(p: Pieces, s: Bytes, k: nat, l: nat)
    requires Counts32(p) && LaidOut(p, s) && 0 < p.indexCount <= MAX_COUNT && k <= l <= |p.indexes|
    ensures TailStart(p) <= |s|
    ensures var at := IndexesStart(p);
      IndexLeftOut(s, ColumnsEnd(p), p.indexCount, at + k, at + l, TailStart(p)) == Assemble(IndexRemoved(p, k, l))
  {
    hide Le32, ConstraintBytes;
    var at := IndexesStart(p);
    SliceOfSlice(s, at, TailStart(p), 0, k);
    SliceOfSlice(s, at, TailStart(p), l, |p.indexes| - l);
    var u, n := ConstraintBytes(p), Le32(p.indexCount - 1);
    ConstraintsSame(p, IndexRemoved(p, k, l));
    Regrouped(Le32(p.columnCount), p.columns, n, p.indexes[..k] + p.indexes[l..], u);
  }

  lemma Regrouped(a: Bytes, b: Bytes, c: Bytes, d: Bytes, e: Bytes)
    ensures (a + b) + c + (d + e) == a + (b + (c + (d + e)))
  {
    ConcatAssoc(a + b, c, d + e);
    ConcatAssoc(a, b, c + (d + e));
  }

  lemma ConstraintsSame(p: Pieces, q: Pieces)
    requires p.constraintCount == q.constraintCount < 0x1_0000_0000 && p.constraints == q.constraints
    requires p.roots == q.roots
    ensures ConstraintBytes(p) == ConstraintBytes(q)
  {
  }

  /** Some constraint names the object as its owner. */
  method OwnsConstraint(constraints: seq<R.Constraint>, objectId: nat) returns (owns: bool)
    ensures owns <==> exists k :: 0 <= k < |constraints| && constraints[k].owner == objectId
  {
    var k := 0;
    while k < |constraints|
      invariant 0 <= k <= |constraints|
      invariant forall j :: 0 <= j < k ==> constraints[j].owner != objectId
    {
      if constraints[k].owner == objectId { return true; }
      k := k + 1;
    }
    return false;
  }

  /** DROP INDEX on the stream. */
  method DropIndex(data: Bytes, index: Name, same: Same) returns (r: Edit<Bytes>)
    ensures if ParseStream(data).None? then r == Refused(NotUnderstood)
            else Refines(r, DropIndexOn(ParseStream(data).value, index, same), true)
    ensures r.Done? ==> ParseStream(data).Some? && Find(IndexNames(ParseStream(data).value.indexes), index, same).Some?
    ensures r.Done? ==> ParseStream(r.value).Some? && KeepsOwners(ParseStream(data).value, ParseStream(r.value).value)
    ensures r.Done? ==>
      r.value == IndexDropped(data, Find(IndexNames(ParseStream(data).value.indexes), index, same).value)
  {
    hide Describes, ParseStream, IndexLeftOut, InLimits, Holds, LaidOut, Assemble;
    var ok, t, p := ParseSchemaTail(data);
    if !ok { return Refused(NotUnderstood); }
    ghost var x := ParseStream(data).value;
    TailValues(t, data, p, x);
    SchemaIs(t, data, p, x);
    DropKeepsOwners(x, index, same);
    var records := Values(t.indexes);
    var found := Find(IndexNames(records), index, same);
    if found.None? { return Refused(NoSuchIndex); }
    var i := found.value;
    var owns := OwnsConstraint(Values(t.constraints), records[i].objectId);
    if records[i].primary || records[i].unique || owns { return Refused(BacksConstraint); }
    IndexOrdered(t, data, p, x, i);
    IndexSpliced(t, data, p, x, i);
    r := Done(IndexLeftOut(data, t.columnsEnd, |t.indexes|, t.indexes[i].start, t.indexes[i].end, t.tailStart));
  }

  /** The schema a stream was taken apart into. */
  function SchemaOf(t: Tail, roots: Bytes): Schema
  {
    Schema(Values(t.columns), Values(t.indexes), Values(t.constraints), roots)
  }

  lemma SchemaIs(t: Tail, s: Bytes, p: Pieces, x: Schema)
    requires Describes(t, s, p, x)
    ensures |s| >= ROOTS_SIZE && SchemaOf(t, s[|s| - ROOTS_SIZE..]) == x
    ensures 4 <= t.columnsEnd && t.columnsEnd + 4 <= t.tailStart && t.tailStart + 4 + ROOTS_SIZE <= |s|
    ensures |t.columns| <= R.MAX_SCHEMA_COLUMNS && |t.indexes| <= MAX_COUNT && |t.constraints| <= MAX_COUNT
  {
    hide ReadList, Bounds, C.ColumnC, R.IndexC, R.ConstraintC, Assemble, Le32, Entries;
    TailValues(t, s, p, x);
  }

  /** An index of a key, or the owner of a constraint. */
  ghost predicate Implements(x: Schema, r: R.IndexRecord)
  {
    r.primary || r.unique || exists k :: k in x.constraints && k.owner == r.objectId
  }

  /** No index that implements a constraint is dropped: not one of a key, and not the owner of any constraint. */
  ghost predicate KeepsOwners(x: Schema, y: Schema)
  {
    && y.columns == x.columns && y.constraints == x.constraints && y.roots == x.roots
    && |y.indexes| == |x.indexes| - 1
    && forall r :: r in x.indexes && Implements(x, r) ==> r in y.indexes
  }

  lemma DropKeepsOwners(x: Schema, index: Name, same: Same)
    ensures DropIndexOn(x, index, same).Done? ==> KeepsOwners(x, DropIndexOn(x, index, same).value)
    ensures DropIndexOn(x, index, same) == Refused(BacksConstraint) ==>
      exists r :: r in x.indexes && same(r.name, index) && Implements(x, r)
  {
    hide Find;
    var found := Find(IndexNames(x.indexes), index, same);
    if found.Some? {
      var i := found.value;
      assert x.indexes[i] in x.indexes;
      if !Backs(x, x.indexes[i]) {
        forall r | r in x.indexes && Implements(x, r)
          ensures r in Without(x.indexes, i)
        {
          var j :| 0 <= j < |x.indexes| && x.indexes[j] == r;
          if j < i { assert Without(x.indexes, i)[j] == r; } else { assert Without(x.indexes, i)[j - 1] == r; }
        }
      }
    }
  }

  // -- CREATE INDEX -----------------------------------------------------------------------------------------

  /** The stream with an index record behind the others and, for a unique index, a constraint record. */
  function IndexWritten(s: Bytes, columnsEnd: nat, count: nat, tailStart: nat, constraintCount: nat, record: Bytes,
                        constraint: Option<Bytes>): Bytes
    requires count <= MAX_COUNT && constraintCount <= MAX_COUNT
    requires columnsEnd + 4 <= tailStart && tailStart + 4 + ROOTS_SIZE <= |s|
  {
    var trailerStart := |s| - ROOTS_SIZE;
    SpliceIndexRecord(s, columnsEnd, count + 1, s[columnsEnd + 4..tailStart] + record +
      if constraint.None? then s[tailStart..]
      else Le32(constraintCount + 1) + (s[tailStart + 4..trailerStart] + constraint.value + s[trailerStart..]))
  }

  function WrittenConstraint(k: Option<R.Constraint>): Option<Bytes>
  {
    if k.None? then None else Some(R.ConstraintC().write(k.value))
  }

  lemma AddedBytes(p: Pieces, s: Bytes, r: R.IndexRecord, k: Option<R.Constraint>)
    requires Counts32(p) && InLimits(p) && LaidOut(p, s) && |p.roots| == ROOTS_SIZE
    ensures TailStart(p) + 4 + ROOTS_SIZE <= |s|
    ensures IndexWritten(s, ColumnsEnd(p), p.indexCount, TailStart(p), p.constraintCount, R.IndexC().write(r),
                         WrittenConstraint(k))
         == Assemble(IndexAdded(p, r, k))
  {
    hide Le32, R.IndexC, R.ConstraintC;
    var q := IndexAdded(p, r, k);
    Regrouped(Le32(p.columnCount), p.columns, Le32(p.indexCount + 1), q.indexes, ConstraintBytes(q));
  }

  /** CREATE INDEX on the stream. */
  method CreateIndex(data: Bytes, q: Request, same: Same, usable: (seq<C.Column>, bool) -> bool)
    returns (r: Edit<Bytes>)
    ensures if ParseStream(data).None? then r == Refused(NotUnderstood)
            else Refines(r, CreateIndexOn(ParseStream(data).value, q, same, usable),
                HasIndexRoom(ParseStream(data).value, q))
    ensures r.Done? ==> ParseStream(data).Some? && PlanIndex(ParseStream(data).value, q, same, usable).Done?
    ensures r.Done? ==> var cs := PlanIndex(ParseStream(data).value, q, same, usable).value;
      (q.unique ==> cs != []) && r.value == IndexCreated(data, NewIndex(q, cs), NewConstraint(q, cs))
    ensures r.Done? <==>
      ParseStream(data).Some? && exists found :: Creatable(ParseStream(data).value, q, same, usable, found)
    ensures r.Done? && HasIndexRoom(ParseStream(data).value, q) ==>
      ParseStream(r.value).Some? && HasIndexAsked(ParseStream(data).value, ParseStream(r.value).value, q, same)
  {
    hide Describes, ParseStream, GrownBytes, InLimits, Holds, LaidOut, Assemble, PlanIndex, SchemaOf, R.IndexC,
      R.ConstraintC;
    var ok, t, p := ParseSchemaTail(data);
    if !ok { return Refused(NotUnderstood); }
    ghost var x := ParseStream(data).value;
    SchemaIs(t, data, p, x);
    PlanExact(x, q, same, usable);
    var plan := PlanIndex(SchemaOf(t, data[|data| - ROOTS_SIZE..]), q, same, usable);
    if plan.Refused? { return Refused(plan.why); }
    PlanFits(x, q, same, usable);
    PlanAsAsked(x, q, same, usable);
    var record, constraint := NewIndex(q, plan.value), NewConstraint(q, plan.value);
    IndexGrown(t, data, p, x, record, constraint);
    r := Done(GrownBytes(t, data, record, constraint));
  }

  // -- what CREATE INDEX and DROP INDEX come to ----------------------------------------------------------------

  /** The i-th of the columns is the first of that name. */
  ghost predicate FirstNamed(cs: seq<C.Column>, i: nat, name: Name, same: Same)
  {
    i < |cs| && same(cs[i].name, name) && forall j :: 0 <= j < i ==> !same(cs[j].name, name)
  }

  /** The columns are the first ones of these names, in this order. */
  ghost predicate ResolvedTo(cs: seq<C.Column>, names: seq<Name>, found: seq<C.Column>, same: Same)
  {
    && |found| == |names|
    && forall k :: 0 <= k < |names| ==> exists i: nat :: FirstNamed(cs, i, names[k], same) && found[k] == cs[i]
  }

  lemma FindFirst(cs: seq<C.Column>, name: Name, same: Same)
    ensures Find(ColumnNames(cs), name, same).None? ==> forall i: nat :: !FirstNamed(cs, i, name, same)
    ensures Find(ColumnNames(cs), name, same).Some? ==>
      FirstNamed(cs, Find(ColumnNames(cs), name, same).value, name, same)
  {
    hide Find;
  }

  lemma OnlyFirst(cs: seq<C.Column>, i: nat, j: nat, name: Name, same: Same)
    requires FirstNamed(cs, i, name, same) && FirstNamed(cs, j, name, same)
    ensures i == j
  {
  }

  lemma {:induction false} ResolveIs(cs: seq<C.Column>, names: seq<Name>, same: Same)
    ensures Resolve(cs, names, same).Some? ==> ResolvedTo(cs, names, Resolve(cs, names, same).value, same)
    ensures Resolve(cs, names, same).None? ==> forall found :: !ResolvedTo(cs, names, found, same)
  {
    hide FirstNamed, Find;
    if names != [] {
      ResolveIs(cs, names[1..], same);
      FindFirst(cs, names[0], same);
      forall found | ResolvedTo(cs, names, found, same)
        ensures Find(ColumnNames(cs), names[0], same).Some? && Resolve(cs, names[1..], same).Some?
      {
        assert ResolvedTo(cs, names[1..], found[1..], same);
      }
    }
  }

  lemma ResolvedOnce(cs: seq<C.Column>, names: seq<Name>, a: seq<C.Column>, b: seq<C.Column>, same: Same)
    requires ResolvedTo(cs, names, a, same) && ResolvedTo(cs, names, b, same)
    ensures a == b
  {
    forall k | 0 <= k < |names|
      ensures a[k] == b[k]
    {
      var i: nat :| FirstNamed(cs, i, names[k], same) && a[k] == cs[i];
      var j: nat :| FirstNamed(cs, j, names[k], same) && b[k] == cs[j];
      OnlyFirst(cs, i, j, names[k], same);
    }
  }

  /** A column of an index is the first of the name asked for, ascending, and compared as asked. */
  ghost predicate CoveredAsAsked(cs: seq<C.Column>, name: Name, nocase: bool, c: R.IndexColumn, same: Same)
  {
    exists i: nat ::
      FirstNamed(cs, i, name, same) && c.name == UpToNul(cs[i].name) && !c.descending && c.caseInsensitive == nocase
  }

  /** An index is the one asked for: its name, its ids, its root page, and its columns in the order given. */
  ghost predicate IndexAsAsked(cs: seq<C.Column>, q: Request, r: R.IndexRecord, same: Same)
  {
    && r.name == UpToNul(q.index) && r.objectId == q.objectId && r.root == q.root
    && r.unique == q.unique && !r.primary && |r.columns| == |q.columns|
    && forall k :: 0 <= k < |q.columns| ==> CoveredAsAsked(cs, q.columns[k], q.nocase, r.columns[k], same)
  }

  /** A constraint is the one a unique index implements: it has the next id, names index and column, and the index owns
      it. */
  ghost predicate ConstraintAsAsked(cs: seq<C.Column>, q: Request, k: R.Constraint, same: Same)
  {
    && k.kind == R.UNIQUE && k.objectId == q.objectId + 1 && k.owner == q.objectId && |q.columns| == 1
    && exists i: nat ::
      && FirstNamed(cs, i, q.columns[0], same) && k.name == UpToNul(UNIQUE_PREFIX + cs[i].name)
      && k.body == R.KeyBody([], UpToNul(q.index), [(cs[i].id, UpToNul(cs[i].name))])
  }

  /** A schema has the index asked for behind its others, with its constraint when it is unique, and is the same
      otherwise. */
  ghost predicate HasIndexAsked(x: Schema, y: Schema, q: Request, same: Same)
  {
    && y.columns == x.columns && y.roots == x.roots
    && |y.indexes| == |x.indexes| + 1 && y.indexes[..|x.indexes|] == x.indexes
    && IndexAsAsked(x.columns, q, y.indexes[|x.indexes|], same)
    && if q.unique then
         && |y.constraints| == |x.constraints| + 1 && y.constraints[..|x.constraints|] == x.constraints
         && ConstraintAsAsked(x.columns, q, y.constraints[|x.constraints|], same)
       else y.constraints == x.constraints
  }

  lemma IndexIsAsked(cs: seq<C.Column>, q: Request, found: seq<C.Column>, same: Same)
    requires ResolvedTo(cs, q.columns, found, same)
    ensures IndexAsAsked(cs, q, R.NormIndex(NewIndex(q, found)), same)
  {
    hide UpToNul;
    var r := R.NormIndex(NewIndex(q, found));
    forall k | 0 <= k < |q.columns|
      ensures CoveredAsAsked(cs, q.columns[k], q.nocase, r.columns[k], same)
    {
      var i: nat :| FirstNamed(cs, i, q.columns[k], same) && found[k] == cs[i];
      assert r.columns[k] == R.IndexColumn(UpToNul(cs[i].name), false, q.nocase);
    }
  }

  lemma ConstraintIsAsked(cs: seq<C.Column>, q: Request, found: seq<C.Column>, same: Same)
    requires ResolvedTo(cs, q.columns, found, same) && q.unique && |found| == 1
    ensures ConstraintAsAsked(cs, q, R.NormConstraint(NewConstraint(q, found).value), same)
  {
    hide UpToNul;
    var i: nat :| FirstNamed(cs, i, q.columns[0], same) && found[0] == cs[i];
    KeyBodyNorm(q.index, cs[i].id, cs[i].name);
  }

  lemma KeyBodyNorm(index: Name, id: nat, column: Name)
    ensures R.NormBody(R.KeyBody([], index, [(id, column)])) == R.KeyBody([], UpToNul(index), [(id, UpToNul(column))])
  {
    assert NormList(R.KeyColumnC(), [(id, column)]) == [(id, UpToNul(column))];
  }

  /** An index can be made as asked: its columns are there and can be indexed, no index has its name, a unique one
      covers one column, and what is to be written fits its records. */
  ghost predicate Creatable(x: Schema, q: Request, same: Same, usable: (seq<C.Column>, bool) -> bool,
                            found: seq<C.Column>)
  {
    && ResolvedTo(x.columns, q.columns, found, same) && 1 <= |found| <= R.MAX_SCHEMA_COLUMNS && usable(found, q.nocase)
    && (forall i :: 0 <= i < |x.indexes| ==> !same(x.indexes[i].name, q.index)) && (q.unique ==> |found| == 1)
    && R.WritableIndex(NewIndex(q, found)) && (q.unique ==> R.WritableConstraint(NewConstraint(q, found).value))
  }

  /** An index is planned exactly when it can be made. */
  lemma PlanExact(x: Schema, q: Request, same: Same, usable: (seq<C.Column>, bool) -> bool)
    ensures PlanIndex(x, q, same, usable).Done? ==> Creatable(x, q, same, usable, PlanIndex(x, q, same, usable).value)
    ensures PlanIndex(x, q, same, usable).Refused? ==> forall found :: !Creatable(x, q, same, usable, found)
  {
    hide Find, Resolve, ResolvedTo, R.WritableIndex, R.WritableConstraint, NewIndex, NewConstraint;
    ResolveIs(x.columns, q.columns, same);
    var cs := Resolve(x.columns, q.columns, same);
    forall found | Creatable(x, q, same, usable, found)
      ensures cs.Some? && found == cs.value
    {
      ResolvedOnce(x.columns, q.columns, found, cs.value, same);
    }
  }

  /** What is planned is what was asked for. */
  lemma PlanAsAsked(x: Schema, q: Request, same: Same, usable: (seq<C.Column>, bool) -> bool)
    requires PlanIndex(x, q, same, usable).Done?
    ensures CreateIndexOn(x, q, same, usable).Done?
    ensures HasIndexAsked(x, CreateIndexOn(x, q, same, usable).value, q, same)
  {
    hide ResolvedTo, R.WritableIndex, R.WritableConstraint, R.NormIndex, R.NormConstraint, PlanIndex, IndexAsAsked,
      ConstraintAsAsked, NewIndex;
    PlanExact(x, q, same, usable);
    var cs := PlanIndex(x, q, same, usable).value;
    IndexIsAsked(x.columns, q, cs, same);
    if q.unique { ConstraintIsAsked(x.columns, q, cs, same); }
  }

  /** A count is left for one more index record and, for a unique index, one more constraint record. */
  predicate HasIndexRoom(x: Schema, q: Request)
  {
    |x.indexes| < MAX_COUNT && (q.unique ==> |x.constraints| < MAX_COUNT)
  }

  lemma PlanFits(x: Schema, q: Request, same: Same, usable: (seq<C.Column>, bool) -> bool)
    requires PlanIndex(x, q, same, usable).Done?
    ensures var cs := PlanIndex(x, q, same, usable).value;
      && cs != [] && R.WritableIndex(NewIndex(q, cs))
      && (NewConstraint(q, cs).Some? <==> q.unique)
      && (q.unique ==> R.WritableConstraint(NewConstraint(q, cs).value) && NewConstraint(q, cs).value.body.KeyBody?)
  {
    hide R.IndexC, R.ConstraintC;
  }

  /** The offsets and counts a record is put behind the others by. */
  predicate Spacious(t: Tail, n: nat)
  {
    && |t.indexes| <= MAX_COUNT && |t.constraints| <= MAX_COUNT
    && t.columnsEnd + 4 <= t.tailStart && t.tailStart + 4 + ROOTS_SIZE <= n
  }

  function GrownBytes(t: Tail, s: Bytes, r: R.IndexRecord, k: Option<R.Constraint>): Bytes
    requires Spacious(t, |s|)
  {
    IndexWritten(s, t.columnsEnd, |t.indexes|, t.tailStart, |t.constraints|, R.IndexC().write(r), WrittenConstraint(k))
  }

  lemma IndexGrown(t: Tail, s: Bytes, p: Pieces, x: Schema, r: R.IndexRecord, k: Option<R.Constraint>)
    requires ParseStream(s) == Some(x) && Describes(t, s, p, x) && R.WritableIndex(r) && Spacious(t, |s|)
    requires k.Some? ==> R.WritableConstraint(k.value) && k.value.body.KeyBody?
    ensures GrownBytes(t, s, r, k) == IndexCreated(s, r, k)
    ensures ParseStream(GrownBytes(t, s, r, k)) == if IndexRoom(x, k) then Some(SchemaWithIndex(x, r, k)) else None
  {
    hide ReadList, Holds, LaidOut, ParseStream, C.ColumnC, R.IndexC, R.ConstraintC, Assemble, IndexWritten, IndexAdded,
      R.WritableIndex, R.WritableConstraint;
    TailValues(t, s, p, x);
    RootsSize(p, x);
    IndexBehind(p, x, r, k);
    AddedBytes(p, s, r, k);
    DescribedPieces(t, s, p, x);
    OnePieces(p, PiecesOf(s), s);
  }

  lemma RootsSize(p: Pieces, x: Schema)
    requires Holds(p, x)
    ensures |p.roots| == ROOTS_SIZE
  {
    hide ReadList, C.ColumnC, R.IndexC, R.ConstraintC;
  }

  // -- ADD and DROP COLUMN ----------------------------------------------------------------------------------

  /** A new count, the definitions, and the tail as it was. */
  function SpliceColumns(data: Bytes, columnsEnd: nat, newCount: nat, body: Bytes): Bytes
    requires columnsEnd <= |data| && newCount < 0x1_0000_0000
  {
    Le32(newCount) + body + data[columnsEnd..]
  }

  lemma AddedColumnBytes(p: Pieces, s: Bytes, c: C.Column)
    requires Counts32(p) && InLimits(p) && LaidOut(p, s)
    ensures ColumnsEnd(p) <= |s|
    ensures SpliceColumns(s, ColumnsEnd(p), p.columnCount + 1, s[4..ColumnsEnd(p)] + C.ColumnC().write(c))
         == Assemble(ColumnAdded(p, c))
  {
    hide Le32, C.ColumnC;
    var q := ColumnAdded(p, c);
    TailSame(p, q);
    ConcatAssoc(Le32(q.columnCount), q.columns, TailBytes(q));
  }

  lemma TailSame(p: Pieces, q: Pieces)
    requires Counts32(p) && q == p.(columnCount := q.columnCount, columns := q.columns)
    ensures TailBytes(q) == TailBytes(p)
  {
  }

  lemma ColumnGrown(p: Pieces, s: Bytes, x: Schema, c: C.Column)
    requires ParseStream(s) == Some(x) && PiecesAre(p, s) && LaidOut(p, s) && C.WritableColumn(c)
    requires ColumnsEnd(p) <= |s|
    ensures SpliceColumns(s, ColumnsEnd(p), p.columnCount + 1, s[4..ColumnsEnd(p)] + C.ColumnC().write(c))
         == ColumnCreated(s, c)
    ensures ParseStream(SpliceColumns(s, ColumnsEnd(p), p.columnCount + 1, s[4..ColumnsEnd(p)] + C.ColumnC().write(c)))
         == if |x.columns| < R.MAX_SCHEMA_COLUMNS then Some(x.(columns := x.columns + [C.NormColumn(c)])) else None
  {
    hide Holds, LaidOut, ParseStream, C.ColumnC, Assemble, SpliceColumns, ColumnAdded;
    Lengths(p, x);
    ColumnBehind(p, x, c);
    AddedColumnBytes(p, s, c);
    OnePieces(p, PiecesOf(s), s);
  }

  /** What a stream's columns alone tell of it. */
  lemma ColumnsDescribed(data: Bytes, es: seq<Entry<C.Column>>, end: nat) returns (p: Pieces)
    requires ParseStream(data).Some?
    requires Spans(C.ColumnC(), data, 4, es, end) && 4 <= end <= |data| && |es| == ReadLe32(data, 0)
    ensures Counts32(p) && PiecesAre(p, data) && LaidOut(p, data)
    ensures Values(es) == ParseStream(data).value.columns && end == ColumnsEnd(p) && |es| == p.columnCount
    ensures |data| >= ROOTS_SIZE && data[|data| - ROOTS_SIZE..] == ParseStream(data).value.roots
  {
    hide Lawful, AtLeast, ReadList, Spans, ParseStream, C.ColumnC, R.IndexC, R.ConstraintC, Le32, ReadLe32;
    ArraysLawful();
    p := Taken(data);
    Offsets(p);
    Lengths(p, ParseStream(data).value);
    assert data[0..] == data;
    ArrayDescribes(C.ColumnC(), data, 0, es, end, p.columnCount, p.columns, TailBytes(p));
  }

  /** What follows the columns of the one stream ends the other. */
  ghost predicate TailKept(before: Bytes, after: Bytes)
  {
    var r := ColumnsC().read(before);
    r.Got? && r.size <= |before| && |before| - r.size <= |after|
    && after[|after| - (|before| - r.size)..] == before[r.size..]
  }

  lemma StreamSize(data: Bytes)
    requires ParseStream(data).Some?
    ensures |data| >= ROOTS_SIZE && ColumnsC().read(data).Got?
  {
  }

  lemma SplicedTail(data: Bytes, end: nat, n: nat, body: Bytes)
    requires ColumnsC().read(data).Got? && ColumnsC().read(data).size == end <= |data| && n < 0x1_0000_0000
    ensures TailKept(data, SpliceColumns(data, end, n, body))
  {
    hide ColumnsC;
    var t := SpliceColumns(data, end, n, body);
    assert t[|t| - (|data| - end)..] == data[end..];
  }

  lemma CountLimited(data: Bytes)
    requires ColumnsC().read(data).Got?
    ensures |data| >= 4 && ReadLe32(data, 0) <= R.MAX_SCHEMA_COLUMNS
  {
    hide ReadLe32, C.ColumnC;
  }

  /** The column definitions and where they lie, whatever follows them. */
  method SchemaColumnSpans(data: Bytes) returns (ok: bool, es: seq<Entry<C.Column>>, end: nat, ghost p: Pieces)
    ensures ok <==> ColumnsC().read(data).Got?
    ensures ok ==> 4 <= end == ColumnsC().read(data).size <= |data| && |es| <= R.MAX_SCHEMA_COLUMNS
    ensures ParseStream(data).Some? ==> ok && |data| >= ROOTS_SIZE
    ensures ParseStream(data).Some? ==> Counts32(p) && PiecesAre(p, data)
    ensures ParseStream(data).Some? ==> LaidOut(p, data) && end == ColumnsEnd(p) && |es| == p.columnCount
    ensures ParseStream(data).Some? ==> Values(es) == ParseStream(data).value.columns
    ensures ParseStream(data).Some? ==> data[|data| - ROOTS_SIZE..] == ParseStream(data).value.roots
  {
    hide Lawful, AtLeast, Spans, ParseStream, ReadCounted, InLimits, Holds, LaidOut, Assemble, C.ColumnC, ReadLe32;
    p := Pieces(0, [], 0, [], 0, [], []);
    if ParseStream(data).Some? { StreamSize(data); }
    ArraysLawful();
    assert data[0..] == data;
    ok, es, end := ParseArray(COLUMN_LIMITS, C.ColumnC(), data, 0);
    if ok { CountLimited(data); }
    if ParseStream(data).Some? { p := ColumnsDescribed(data, es, end); }
  }

  /** ADD COLUMN on the stream: what follows the columns is not looked at, and copied. The reader takes 65000 columns,
      and nothing keeps the writer from the 65001st. */
  method AddColumn(data: Bytes, c: C.Column, same: Same) returns (r: Edit<Bytes>)
    ensures ParseStream(data).Some? ==>
      Refines(r, AddColumnOn(ParseStream(data).value, c, same),
              |ParseStream(data).value.columns| < R.MAX_SCHEMA_COLUMNS)
    ensures ParseStream(data).Some? && r.Done? ==> r.value == ColumnCreated(data, c)
    ensures ParseStream(data).Some? ==> (r.Done? <==> Addable(ParseStream(data).value, c, same))
    ensures r.Done? ==> TailKept(data, r.value)
  {
    hide ParseStream, InLimits, Holds, LaidOut, ColumnsC, C.ColumnC, TailKept, SpliceColumns;
    var ok, es, end, p := SchemaColumnSpans(data);
    if ParseStream(data).Some? { AddEdits(ParseStream(data).value, c, same); }
    if |data| < ROOTS_SIZE { return Refused(NotUnderstood); }
    var y := Schema(Values(es), [], [], data[|data| - ROOTS_SIZE..]);
    if HasBlobPages(y) { return Refused(HasBlobs); }
    if !ok { return Refused(NotUnderstood); }
    if Find(ColumnNames(y.columns), c.name, same).Some? { return Refused(ColumnExists); }
    if !C.WritableColumn(c) { return Refused(NotWritable); }
    var body := data[4..end] + C.ColumnC().write(c);
    SplicedTail(data, end, |es| + 1, body);
    if ParseStream(data).Some? { ColumnGrown(p, data, ParseStream(data).value, c); }
    r := Done(SpliceColumns(data, end, |es| + 1, body));
  }

  /** The stream with the definition between two offsets left out, and a lower count. */
  function ColumnLeftOut(s: Bytes, columnsEnd: nat, count: nat, start: nat, end: nat): Bytes
    requires 0 < count <= R.MAX_SCHEMA_COLUMNS && 4 <= start <= end <= columnsEnd <= |s|
  {
    SpliceColumns(s, columnsEnd, count - 1, s[4..start] + s[end..columnsEnd])
  }

  predicate ColumnInOrder(t: Tail, i: nat, n: nat)
  {
    i < |t.columns| <= R.MAX_SCHEMA_COLUMNS && 4 <= t.columns[i].start <= t.columns[i].end <= t.columnsEnd <= n
  }

  lemma ColumnOrdered(t: Tail, s: Bytes, p: Pieces, x: Schema, i: nat)
    requires Describes(t, s, p, x) && i < |t.columns|
    ensures ColumnInOrder(t, i, |s|)
  {
    hide ReadList, Bounds, Holds, C.ColumnC, R.IndexC, R.ConstraintC, Assemble, Le32, LaidOut;
    TailValues(t, s, p, x);
    LaidOutLength(p, s);
    assert EntryAt(C.ColumnC(), p.columns, 4, t.columns[i], i, x.columns[i]);
  }

  lemma RemovedColumnBytes(p: Pieces, s: Bytes, k: nat, l: nat)
    requires Counts32(p) && InLimits(p) && LaidOut(p, s) && 0 < p.columnCount && k <= l <= |p.columns|
    ensures ColumnsEnd(p) <= |s|
    ensures ColumnLeftOut(s, ColumnsEnd(p), p.columnCount, 4 + k, 4 + l) == Assemble(ColumnRemoved(p, k, l))
  {
    hide Le32;
    var q := ColumnRemoved(p, k, l);
    SliceOfSlice(s, 4, ColumnsEnd(p), 0, k);
    SliceOfSlice(s, 4, ColumnsEnd(p), l, |p.columns| - l);
    TailSame(p, q);
    ConcatAssoc(Le32(q.columnCount), q.columns, TailBytes(q));
  }

  lemma ColumnSpliced(t: Tail, s: Bytes, p: Pieces, x: Schema, i: nat)
    requires ParseStream(s) == Some(x) && Describes(t, s, p, x) && i < |x.columns| && ColumnInOrder(t, i, |s|)
    ensures ColumnLeftOut(s, t.columnsEnd, |t.columns|, t.columns[i].start, t.columns[i].end) == ColumnDropped(s, i)
    ensures ParseStream(ColumnLeftOut(s, t.columnsEnd, |t.columns|, t.columns[i].start, t.columns[i].end))
         == Some(x.(columns := Without(x.columns, i)))
  {
    hide ReadList, Bounds, Holds, LaidOut, ParseStream, C.ColumnC, R.IndexC, R.ConstraintC, Assemble, ColumnLeftOut;
    TailValues(t, s, p, x);
    var e := t.columns[i];
    assert EntryAt(C.ColumnC(), p.columns, 4, e, i, x.columns[i]);
    ColumnCut(p, x, i, e.start - 4, e.end - 4);
    RemovedColumnBytes(p, s, e.start - 4, e.end - 4);
    DescribedPieces(t, s, p, x);
    ColumnDroppedIs(p, s, i, e.start - 4, e.end - 4);
  }

  /** DROP COLUMN on a stream that parses to its end. */
  method DropColumn(data: Bytes, column: Name, same: Same) returns (r: Edit<Bytes>)
    requires ParseStream(data).Some?
    ensures Refines(r, DropColumnOn(ParseStream(data).value, column, same), true)
    ensures r.Done? <==> Droppable(ParseStream(data).value, column, same)
    ensures r.Done? ==> Find(ColumnNames(ParseStream(data).value.columns), column, same).Some?
    ensures r.Done? ==>
      r.value == ColumnDropped(data, Find(ColumnNames(ParseStream(data).value.columns), column, same).value)
  {
    hide Describes, ParseStream, ColumnLeftOut, InLimits, Holds, LaidOut, Assemble, SchemaOf, Covers, Constrains;
    var ok, t, p := ParseSchemaTail(data);
    ghost var x := ParseStream(data).value;
    SchemaIs(t, data, p, x);
    var y := SchemaOf(t, data[|data| - ROOTS_SIZE..]);
    DropEdits(x, column, same);
    var verdict := DropColumnOn(y, column, same);
    if verdict.Refused? { return Refused(verdict.why); }
    var i := Find(ColumnNames(y.columns), column, same).value;
    TailValues(t, data, p, x);
    ColumnOrdered(t, data, p, x, i);
    ColumnSpliced(t, data, p, x, i);
    r := Done(ColumnLeftOut(data, t.columnsEnd, |t.columns|, t.columns[i].start, t.columns[i].end));
  }
}
