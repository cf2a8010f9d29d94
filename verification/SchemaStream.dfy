/** A table's schema stream: three counted arrays and two page numbers, read, written, and edited by splicing. */
module SchemaStream {
  import opened Bits
  import opened Inflate
  import opened LittleEndian
  import opened TableCatalog
  import opened Codecs
  import opened SchemaFields
  import R = SchemaRecords
  import C = SchemaColumns

  const ROOTS_SIZE: nat := 8
  const NO_PAGE: nat := 0xFFFF_FFFF
  const MAX_COUNT: nat := 0x7FFF_FFFF

  const COLUMN_LIMITS: Limits := Limits(0, R.MAX_SCHEMA_COLUMNS, 46, 4)
  const ARRAY_LIMITS: Limits := Limits(0, MAX_COUNT, 1, 0)

  datatype Schema = Schema(columns: seq<C.Column>, indexes: seq<R.IndexRecord>, constraints: seq<R.Constraint>,
                           roots: Bytes)

  type Arrays = (((), seq<C.Column>), (((), seq<R.IndexRecord>), ((), seq<R.Constraint>)))

  function ColumnsC(): Codec<((), seq<C.Column>)> { Counted(COLUMN_LIMITS, UnitC(), C.ColumnC()) }

  function IndexesC(): Codec<((), seq<R.IndexRecord>)> { Counted(ARRAY_LIMITS, UnitC(), R.IndexC()) }

  function ConstraintsC(): Codec<((), seq<R.Constraint>)> { Counted(ARRAY_LIMITS, UnitC(), R.ConstraintC()) }

  function ArraysC(): Codec<Arrays> { Pair(ColumnsC(), Pair(IndexesC(), ConstraintsC())) }

  /** The whole stream; exactly the two page numbers must be left behind the arrays. */
  function ParseStream(s: Bytes): Option<Schema>
  {
    match ArraysC().read(s)
    case Bad => None
    case Got(v, n) =>
      if n + ROOTS_SIZE != |s| then None else Some(Schema(v.0.1, v.1.0.1, v.1.1.1, s[n..]))
  }

  lemma ArraysLawful()
    ensures Lawful(C.ColumnC()) && Lawful(R.IndexC()) && Lawful(R.ConstraintC()) && Lawful(UnitC())
    ensures AtLeast(C.ColumnC(), 46) && AtLeast(R.IndexC(), 1) && AtLeast(R.ConstraintC(), 1)
    ensures Lawful(ColumnsC()) && Lawful(IndexesC()) && Lawful(ConstraintsC()) && Lawful(ArraysC())
  {
    hide Lawful, AtLeast, Restores, Counted, Pair, UnitC, C.ColumnC, R.IndexC, R.ConstraintC;
    UnitLawful();
    C.ColumnReadable();
    R.IndexExact();
    R.ConstraintExact();
    Weaker(R.IndexC(), 12, 1);
    Weaker(R.ConstraintC(), 23, 1);
    CountedLawful(COLUMN_LIMITS, UnitC(), C.ColumnC());
    CountedLawful(ARRAY_LIMITS, UnitC(), R.IndexC());
    CountedLawful(ARRAY_LIMITS, UnitC(), R.ConstraintC());
    PairLawful(IndexesC(), ConstraintsC());
    PairLawful(ColumnsC(), Pair(IndexesC(), ConstraintsC()));
  }

  lemma Weaker<T(!new)>(c: Codec<T>, n: nat, m: nat)
    requires AtLeast(c, n) && m <= n
    ensures AtLeast(c, m)
  {
  }

  // -- writing a new stream -------------------------------------------------------------------------------

  /** The stream of a new table, from its three arrays as they are written. */
  function BuildStream(columns: seq<C.Column>, indexes: seq<R.IndexRecord>, constraints: seq<R.Constraint>, root: nat)
      : Bytes
    requires root < 0x1_0000_0000
  {
    ArraysC().write((((), columns), (((), indexes), ((), constraints)))) + (Le32(root) + Le32(NO_PAGE))
  }

  /** The writer's own refusals. */
  predicate Serializable(columns: seq<C.Column>, indexes: seq<R.IndexRecord>, constraints: seq<R.Constraint>)
  {
    && |columns| <= R.MAX_SCHEMA_COLUMNS && (forall i :: 0 <= i < |columns| ==> C.WritableColumn(columns[i]))
    && |indexes| <= MAX_COUNT && (forall i :: 0 <= i < |indexes| ==> R.WritableIndex(indexes[i]))
    && |constraints| <= R.MAX_SCHEMA_COLUMNS
    && forall i :: 0 <= i < |constraints| ==> R.WritableConstraint(constraints[i])
  }

  lemma SerializableAccepted(columns: seq<C.Column>, indexes: seq<R.IndexRecord>, constraints: seq<R.Constraint>)
    requires Serializable(columns, indexes, constraints)
    ensures AllAccepted(C.ColumnC(), columns) && AllAccepted(R.IndexC(), indexes)
    ensures AllAccepted(R.ConstraintC(), constraints)
  {
    hide C.ColumnC, R.IndexC, R.ConstraintC, C.WritableColumn, R.WritableIndex, R.WritableConstraint;
    forall i | 0 <= i < |columns| ensures C.ColumnC().accepts(columns[i]) { C.ColumnAccepted(columns[i]); }
    forall i | 0 <= i < |indexes| ensures R.IndexC().accepts(indexes[i]) { R.IndexAccepted(indexes[i]); }
    forall i | 0 <= i < |constraints| ensures R.ConstraintC().accepts(constraints[i]) {
      R.ConstraintAccepted(constraints[i]);
    }
  }

  /** No NOT NULL or CHECK record names a table or a column of 255 bytes. */
  predicate ShortNames(constraints: seq<R.Constraint>)
  {
    forall i :: 0 <= i < |constraints| ==> var b := constraints[i].body;
      b.KeyBody? || (|b.table| <= 254 && |b.column| <= 254)
  }

  /** What comes back of a stream: every name up to its first NUL. */
  function Normal(columns: seq<C.Column>, indexes: seq<R.IndexRecord>, constraints: seq<R.Constraint>, roots: Bytes)
      : Schema
  {
    Schema(NormList(C.ColumnC(), columns), NormList(R.IndexC(), indexes), NormList(R.ConstraintC(), constraints), roots)
  }

  /** A stream that was written is read back exactly when no column constraint carries a name of 255 bytes. */
  lemma BuildThenParse(columns: seq<C.Column>, indexes: seq<R.IndexRecord>, constraints: seq<R.Constraint>, root: nat)
    requires Serializable(columns, indexes, constraints) && root < 0x1_0000_0000
    ensures ParseStream(BuildStream(columns, indexes, constraints, root))
         == if ShortNames(constraints) then Some(Normal(columns, indexes, constraints, Le32(root) + Le32(NO_PAGE)))
            else None
  {
    hide Lawful, Counted, ReadCounted, Pair, NormList, C.ColumnC, R.IndexC, R.ConstraintC, AllAccepted, ShortNames,
        Le32;
    ArraysLawful();
    var v: Arrays := (((), columns), (((), indexes), ((), constraints)));
    var roots := Le32(root) + Le32(NO_PAGE);
    ArraysAccepted(columns, indexes, constraints);
    Back(ArraysC(), v, roots);
    var w := ArraysC().write(v);
    assert (w + roots)[|w|..] == roots;
  }

  lemma ArraysAccepted(columns: seq<C.Column>, indexes: seq<R.IndexRecord>, constraints: seq<R.Constraint>)
    requires Serializable(columns, indexes, constraints)
    ensures var v := (((), columns), (((), indexes), ((), constraints)));
      && ArraysC().accepts(v) && (ArraysC().sound(v) <==> ShortNames(constraints))
      && ArraysC().norm(v) == (((), NormList(C.ColumnC(), columns)),
           (((), NormList(R.IndexC(), indexes)), ((), NormList(R.ConstraintC(), constraints))))
  {
    hide AllAccepted, ShortNames, NormList, AllSound, ReadBind, ReadCounted, WriteCounted, C.ColumnC, R.IndexC,
      R.ConstraintC;
    SerializableAccepted(columns, indexes, constraints);
    AllColumnsSound(columns);
    AllIndexesSound(indexes);
    AllConstraintsSound(constraints);
    PairParts(IndexesC(), ConstraintsC(), (((), indexes), ((), constraints)));
    PairParts(ColumnsC(), Pair(IndexesC(), ConstraintsC()), (((), columns), (((), indexes), ((), constraints))));
  }

  lemma AllColumnsSound(cs: seq<C.Column>)
    ensures AllSound(C.ColumnC(), cs)
  {
    forall i | 0 <= i < |cs| ensures C.ColumnC().sound(cs[i]) { C.ColumnSound(cs[i]); }
  }

  lemma AllIndexesSound(rs: seq<R.IndexRecord>)
    ensures AllSound(R.IndexC(), rs)
  {
    forall i | 0 <= i < |rs| ensures R.IndexC().sound(rs[i]) { R.IndexSound(rs[i]); }
  }

  lemma AllConstraintsSound(cs: seq<R.Constraint>)
    requires AllAccepted(R.ConstraintC(), cs)
    ensures AllSound(R.ConstraintC(), cs) <==> ShortNames(cs)
  {
    hide R.ConstraintC;
    forall i | 0 <= i < |cs|
      ensures R.ConstraintC().sound(cs[i])
         <==> cs[i].body.KeyBody? || (|cs[i].body.table| <= 254 && |cs[i].body.column| <= 254)
    {
      R.ConstraintComesBack(cs[i]);
    }
  }

  // -- names and bytes that stay ----------------------------------------------------------------------------

  predicate NulFree(x: Name)
  {
    forall i :: 0 <= i < |x| ==> x[i] != 0
  }

  predicate PlainIndex(r: R.IndexRecord)
  {
    NulFree(r.name) && forall i :: 0 <= i < |r.columns| ==> NulFree(r.columns[i].name)
  }

  predicate PlainBody(b: R.Body)
  {
    match b
    case KeyBody(t, i, cs) => NulFree(t) && NulFree(i) && forall k :: 0 <= k < |cs| ==> NulFree(cs[k].1)
    case ColumnBody(t, c) => NulFree(t) && NulFree(c)
    case CheckBody(t, c, _, _) => NulFree(t) && NulFree(c)
  }

  /** An index record comes back as it was exactly when no name in it holds a NUL. */
  lemma IndexComesBackWhole(r: R.IndexRecord)
    ensures R.IndexC().norm(r) == r <==> PlainIndex(r)
  {
    hide UpToNul;
    UpToNulWhole(r.name);
    forall i | 0 <= i < |r.columns|
      ensures R.IndexColumnC().norm(r.columns[i]) == r.columns[i] <==> NulFree(r.columns[i].name)
    {
      UpToNulWhole(r.columns[i].name);
    }
    var columns := NormList(R.IndexColumnC(), r.columns);
    if R.NormIndex(r) == r {
      assert forall i :: 0 <= i < |columns| ==> columns[i] == r.columns[i];
    }
  }

  /** And so a constraint record. */
  lemma ConstraintComesBackWhole(k: R.Constraint)
    ensures R.ConstraintC().norm(k) == k <==> NulFree(k.name) && PlainBody(k.body)
  {
    hide R.NormBody, UpToNul;
    UpToNulWhole(k.name);
    BodyComesBackWhole(k.body);
  }

  lemma BodyComesBackWhole(b: R.Body)
    ensures R.NormBody(b) == b <==> PlainBody(b)
  {
    hide UpToNul;
    UpToNulWhole(b.table);
    if b.KeyBody? {
      UpToNulWhole(b.index);
      forall i | 0 <= i < |b.columns|
        ensures R.KeyColumnC().norm(b.columns[i]) == b.columns[i] <==> NulFree(b.columns[i].1)
      {
        UpToNulWhole(b.columns[i].1);
      }
      var columns := NormList(R.KeyColumnC(), b.columns);
      if columns == b.columns { assert forall i :: 0 <= i < |columns| ==> columns[i] == b.columns[i]; }
    } else {
      UpToNulWhole(b.column);
    }
  }

  /** Constraint records that were read are written with no more bytes than they took, and with the same bytes if they
      need as many, as they do where no name on file holds a NUL. */
  lemma ConstraintsRewritten(n: nat, s: Bytes)
    requires ReadList(R.ConstraintC(), n, s).Got?
    ensures var r := ReadList(R.ConstraintC(), n, s);
      var w := WriteList(R.ConstraintC(), r.value);
      r.size <= |s| && |w| <= r.size && (|w| == r.size ==> w == s[..r.size])
  {
    hide ReadList, WriteList, R.ConstraintC;
    R.ConstraintExact();
    ListRestored(R.ConstraintC(), n, s);
  }

  /** And so index records. */
  lemma IndexesRewritten(n: nat, s: Bytes)
    requires ReadList(R.IndexC(), n, s).Got?
    ensures var r := ReadList(R.IndexC(), n, s);
      var w := WriteList(R.IndexC(), r.value);
      r.size <= |s| && |w| <= r.size && (|w| == r.size ==> w == s[..r.size])
  {
    hide ReadList, WriteList, R.IndexC;
    R.IndexExact();
    ListRestored(R.IndexC(), n, s);
  }

  // -- the stretches of a stream --------------------------------------------------------------------------

  /** The three counts and the bytes of the records behind each, and the two page numbers. */
  datatype Pieces = Pieces(columnCount: nat, columns: Bytes, indexCount: nat, indexes: Bytes, constraintCount: nat,
                           constraints: Bytes, roots: Bytes)

  function Assemble(p: Pieces): Bytes
    requires p.columnCount < 0x1_0000_0000 && p.indexCount < 0x1_0000_0000 && p.constraintCount < 0x1_0000_0000
  {
    Le32(p.columnCount) + (p.columns + TailBytes(p))
  }

  /** What follows the column definitions. */
  function TailBytes(p: Pieces): Bytes
    requires p.indexCount < 0x1_0000_0000 && p.constraintCount < 0x1_0000_0000
  {
    Le32(p.indexCount) + (p.indexes + ConstraintBytes(p))
  }

  /** What follows the index records. */
  function ConstraintBytes(p: Pieces): Bytes
    requires p.constraintCount < 0x1_0000_0000
  {
    Le32(p.constraintCount) + (p.constraints + p.roots)
  }

  /** The records of each stretch take all of its bytes. */
  ghost predicate Holds(p: Pieces, x: Schema)
  {
    && ReadList(C.ColumnC(), p.columnCount, p.columns) == Got(x.columns, |p.columns|)
    && ReadList(R.IndexC(), p.indexCount, p.indexes) == Got(x.indexes, |p.indexes|)
    && ReadList(R.ConstraintC(), p.constraintCount, p.constraints) == Got(x.constraints, |p.constraints|)
    && p.roots == x.roots && |p.roots| == ROOTS_SIZE
  }

  /** The counts the reader takes. */
  predicate InLimits(p: Pieces)
  {
    p.columnCount <= R.MAX_SCHEMA_COLUMNS && p.indexCount <= MAX_COUNT && p.constraintCount <= MAX_COUNT
  }

  predicate Counts32(p: Pieces)
  {
    p.columnCount < 0x1_0000_0000 && p.indexCount < 0x1_0000_0000 && p.constraintCount < 0x1_0000_0000
  }

  lemma ArrayRead<A(!new)>(l: Limits, item: Codec<A>, n: nat, body: Bytes, t: Bytes)
    requires l.Valid() && l.lo == 0 && Lawful(item) && AtLeast(item, l.per) && n < 0x1_0000_0000
    requires ReadList(item, n, body).Got? && ReadList(item, n, body).size == |body|
    ensures Counted(l, UnitC(), item).read(Le32(n) + (body + t))
         == if n <= l.hi then Got(((), ReadList(item, n, body).value), 4 + |body|) else Bad
  {
    hide Lawful, AtLeast, ReadList, Le32, ReadCounted;
    CountedIs(l, UnitC(), item, n, body + t);
    ListLocal(item, n, body, t);
    assert body[..|body|] + t == body + t && (body + t)[0..] == body + t;
  }

  lemma ArrayTaken<A(!new)>(l: Limits, item: Codec<A>, s: Bytes) returns (n: nat, body: Bytes)
    requires l.Valid() && l.lo == 0 && Lawful(item) && AtLeast(item, l.per)
    requires Counted(l, UnitC(), item).read(s).Got?
    ensures var r := Counted(l, UnitC(), item).read(s);
      && n <= l.hi && ReadList(item, n, body) == Got(r.value.1, |body|)
      && r.size == 4 + |body| <= |s| && s[..r.size] == Le32(n) + body && n == ReadLe32(s, 0)
  {
    hide Lawful, AtLeast, ReadList, Le32, ReadLe32;
    n := ReadLe32(s, 0);
    assert s[4..][0..] == s[4..];
    ListLocal(item, n, s[4..], []);
    var k := ReadList(item, n, s[4..]).size;
    body := s[4..][..k];
    assert body + [] == body;
    Le32Writes(s, 0);
    assert s[..4 + k] == s[0..4] + body;
  }

  /** A stream put together from its stretches is read exactly when no count is above what the reader takes. */
  lemma Parsed(p: Pieces, x: Schema)
    requires Counts32(p) && Holds(p, x)
    ensures ParseStream(Assemble(p)) == if InLimits(p) then Some(x) else None
  {
    hide Lawful, AtLeast, ReadList, Le32, Counted, C.ColumnC, R.IndexC, R.ConstraintC;
    ArraysLawful();
    ArrayRead(COLUMN_LIMITS, C.ColumnC(), p.columnCount, p.columns, TailBytes(p));
    ArrayRead(ARRAY_LIMITS, R.IndexC(), p.indexCount, p.indexes, ConstraintBytes(p));
    ArrayRead(ARRAY_LIMITS, R.ConstraintC(), p.constraintCount, p.constraints, p.roots);
    var s := Assemble(p);
    Behind(p.columnCount, p.columns, TailBytes(p));
    Behind(p.indexCount, p.indexes, ConstraintBytes(p));
    Behind(p.constraintCount, p.constraints, p.roots);
  }

  lemma Behind(n: nat, body: Bytes, t: Bytes)
    requires n < 0x1_0000_0000
    ensures (Le32(n) + (body + t))[4 + |body|..] == t && |Le32(n) + (body + t)| == 4 + |body| + |t|
  {
    hide Le32;
  }

  /** A stream that is read falls into its stretches. */
  lemma Taken(s: Bytes) returns (p: Pieces)
    requires ParseStream(s).Some?
    ensures Counts32(p) && InLimits(p) && Assemble(p) == s && Holds(p, ParseStream(s).value)
    ensures ColumnsC().read(s).Got? && ColumnsC().read(s).size == ColumnsEnd(p) <= |s|
    ensures IndexesC().read(s[ColumnsEnd(p)..]).Got?
    ensures ColumnsEnd(p) + IndexesC().read(s[ColumnsEnd(p)..]).size == TailStart(p)
  {
    hide Lawful, AtLeast, ReadList, Le32, ReadLe32, Counted, C.ColumnC, R.IndexC, R.ConstraintC;
    ArraysLawful();
    var n0, b0 := ArrayTaken(COLUMN_LIMITS, C.ColumnC(), s);
    var t0 := s[4 + |b0|..];
    var n1, b1 := ArrayTaken(ARRAY_LIMITS, R.IndexC(), t0);
    var t1 := t0[4 + |b1|..];
    var n2, b2 := ArrayTaken(ARRAY_LIMITS, R.ConstraintC(), t1);
    var t2 := t1[4 + |b2|..];
    p := Pieces(n0, b0, n1, b1, n2, b2, t2);
    Cut(s, n0, b0, t0);
    Cut(t0, n1, b1, t1);
    Cut(t1, n2, b2, t2);
    assert s[8 + |b0| + |b1|..] == t1;
    assert s[12 + |b0| + |b1| + |b2|..] == t2;
  }

  /** The stretches of a stream that is read. */
  ghost predicate PiecesAre(p: Pieces, s: Bytes)
  {
    ParseStream(s).Some? && Counts32(p) && InLimits(p) && Assemble(p) == s && Holds(p, ParseStream(s).value)
  }

  /** The sizes its arrays are read with tell where a stream's stretches end. */
  lemma ArraySizes(p: Pieces, s: Bytes)
    requires PiecesAre(p, s)
    ensures ColumnsC().read(s).Got? && ColumnsC().read(s).size == ColumnsEnd(p)
    ensures s[ColumnsEnd(p)..] == TailBytes(p) && IndexesC().read(TailBytes(p)).Got?
    ensures ColumnsEnd(p) + IndexesC().read(TailBytes(p)).size == TailStart(p)
  {
    hide Lawful, AtLeast, ReadList, Le32, Counted, C.ColumnC, R.IndexC, R.ConstraintC, ParseStream;
    ArraysLawful();
    Offsets(p);
    ArrayRead(COLUMN_LIMITS, C.ColumnC(), p.columnCount, p.columns, TailBytes(p));
    ArrayRead(ARRAY_LIMITS, R.IndexC(), p.indexCount, p.indexes, ConstraintBytes(p));
  }

  lemma OnePieces(p: Pieces, q: Pieces, s: Bytes)
    requires PiecesAre(p, s) && PiecesAre(q, s)
    ensures p == q
  {
    hide Lawful, AtLeast, ReadList, Le32, Counted, C.ColumnC, R.IndexC, R.ConstraintC, ParseStream;
    ArraySizes(p, s);
    ArraySizes(q, s);
    Offsets(p);
    Offsets(q);
    CountRead(p.columnCount, p.columns + TailBytes(p));
    CountRead(q.columnCount, q.columns + TailBytes(q));
    CountRead(p.indexCount, p.indexes + ConstraintBytes(p));
    CountRead(q.indexCount, q.indexes + ConstraintBytes(q));
    CountRead(p.constraintCount, p.constraints + p.roots);
    CountRead(q.constraintCount, q.constraints + q.roots);
  }

  lemma PiecesExist(s: Bytes)
    requires ParseStream(s).Some?
    ensures exists p :: PiecesAre(p, s)
  {
    hide ParseStream, Holds, Assemble, InLimits;
    var p := Taken(s);
    assert PiecesAre(p, s);
  }

  ghost function PiecesOf(s: Bytes): (p: Pieces)
    requires ParseStream(s).Some?
    ensures PiecesAre(p, s)
  {
    PiecesExist(s);
    var p :| PiecesAre(p, s);
    p
  }

  lemma Cut(s: Bytes, n: nat, body: Bytes, t: Bytes)
    requires n < 0x1_0000_0000 && 4 + |body| <= |s|
    requires s[..4 + |body|] == Le32(n) + body && t == s[4 + |body|..]
    ensures s == Le32(n) + (body + t)
  {
    hide Le32;
    ConcatAssoc(Le32(n), body, t);
  }

  // -- where the stretches lie ----------------------------------------------------------------------------

  function ColumnsEnd(p: Pieces): nat { 4 + |p.columns| }

  function IndexesStart(p: Pieces): nat { ColumnsEnd(p) + 4 }

  function TailStart(p: Pieces): nat { IndexesStart(p) + |p.indexes| }

  function ConstraintsStart(p: Pieces): nat { TailStart(p) + 4 }

  /** The offsets into s, and what lies between them. */
  ghost predicate LaidOut(p: Pieces, s: Bytes)
    requires Counts32(p)
  {
    && |s| == ConstraintsStart(p) + |p.constraints| + |p.roots|
    && s[..ColumnsEnd(p)] == Le32(p.columnCount) + p.columns && s[4..ColumnsEnd(p)] == p.columns
    && s[ColumnsEnd(p)..] == TailBytes(p)
    && s[IndexesStart(p)..TailStart(p)] == p.indexes && s[TailStart(p)..] == ConstraintBytes(p)
    && s[ConstraintsStart(p)..|s| - |p.roots|] == p.constraints && s[|s| - |p.roots|..] == p.roots
  }

  lemma Offsets(p: Pieces)
    requires Counts32(p)
    ensures LaidOut(p, Assemble(p))
  {
    hide Le32;
    var s, t, u := Assemble(p), TailBytes(p), ConstraintBytes(p);
    Front(p.columnCount, p.columns, t);
    Front(p.indexCount, p.indexes, u);
    Front(p.constraintCount, p.constraints, p.roots);
    Inside(s, ColumnsEnd(p), t, 4, 4 + |p.indexes|, p.indexes);
    Inside(s, ColumnsEnd(p), t, 4 + |p.indexes|, |t|, u);
    Inside(s, TailStart(p), u, 4, 4 + |p.constraints|, p.constraints);
    Inside(s, TailStart(p), u, 4 + |p.constraints|, |u|, p.roots);
  }

  lemma Front(n: nat, body: Bytes, t: Bytes)
    requires n < 0x1_0000_0000
    ensures var s := Le32(n) + (body + t);
      && |s| == 4 + |body| + |t| && s[..4 + |body|] == Le32(n) + body && s[4..4 + |body|] == body
      && s[4 + |body|..] == t && s[4 + |body|..|s|] == t
  {
    hide Le32;
    ConcatAssoc(Le32(n), body, t);
    var s := (Le32(n) + body) + t;
    assert s[..4 + |body|] == Le32(n) + body;
    assert (Le32(n) + body)[4..] == body;
  }

  lemma Inside(s: Bytes, at: nat, t: Bytes, i: nat, j: nat, x: Bytes)
    requires at <= |s| && s[at..] == t && i <= j <= |t| && t[i..j] == x
    ensures s[at + i..at + j] == x && (j == |t| ==> s[at + i..] == x)
  {
    SliceOfSlice(s, at, |s|, i, j - i);
  }

  // -- reading the tail -----------------------------------------------------------------------------------

  /** A record and where its bytes lie. */
  datatype Entry<+A> = Entry(value: A, start: nat, end: nat)

  /** Records one behind the other from `pos`, as the list read there. */
  ghost predicate Spans<A(!new)>(c: Codec<A>, data: Bytes, pos: nat, es: seq<Entry<A>>, end: nat)
    requires pos <= |data|
  {
    && ReadList(c, |es|, data[pos..]).Got? && end == pos + ReadList(c, |es|, data[pos..]).size <= |data|
    && AllSpans(c, data, pos, es)
  }

  ghost predicate AllSpans<A(!new)>(c: Codec<A>, data: Bytes, pos: nat, es: seq<Entry<A>>)
    requires pos <= |data|
  {
    forall i :: 0 <= i < |es| ==> SpanAt(c, data, pos, es[i], i)
  }

  lemma MoreSpans<A(!new)>(c: Codec<A>, data: Bytes, pos: nat, es: seq<Entry<A>>, e: Entry<A>)
    requires pos <= |data| && AllSpans(c, data, pos, es) && SpanAt(c, data, pos, e, |es|)
    ensures AllSpans(c, data, pos, es + [e])
  {
    hide SpanAt;
  }

  ghost predicate SpanAt<A(!new)>(c: Codec<A>, data: Bytes, pos: nat, e: Entry<A>, i: nat)
    requires pos <= |data|
  {
    var s := data[pos..];
    && ReadList(c, i, s).Got? && ReadList(c, i + 1, s).Got?
    && e.start == pos + StartOf(c, i, s) && e.end == pos + StartOf(c, i + 1, s)
    && |ReadList(c, i + 1, s).value| == i + 1 && e.value == ReadList(c, i + 1, s).value[i]
  }

  /** So many records one after the other. */
  method ParseRecords<A(!new)>(c: Codec<A>, data: Bytes, start: nat, count: nat)
    returns (ok: bool, es: seq<Entry<A>>, pos: nat)
    requires Lawful(c) && start <= |data|
    ensures ok <==> ReadList(c, count, data[start..]).Got?
    ensures ok ==> |es| == count && Spans(c, data, start, es, pos)
  {
    hide Lawful;
    es, pos := [], start;
    var i := 0;
    assert data[start..] == data[start..];
    while i < count
      invariant 0 <= i <= count && |es| == i && Spans(c, data, start, es, pos)
    {
      var r := c.read(data[pos..]);
      NextRecord(c, data, start, es, pos);
      if r.Bad? {
        NoMore(c, i + 1, count, data[start..]);
        return false, es, pos;
      }
      es, pos := es + [Entry(r.value, pos, pos + r.size)], pos + r.size;
      i := i + 1;
    }
    return true, es, pos;
  }

  lemma NextRecord<A(!new)>(c: Codec<A>, data: Bytes, start: nat, es: seq<Entry<A>>, pos: nat)
    requires Lawful(c) && start <= |data| && Spans(c, data, start, es, pos)
    ensures var r := c.read(data[pos..]);
      if r.Bad? then ReadList(c, |es| + 1, data[start..]).Bad?
      else Spans(c, data, start, es + [Entry(r.value, pos, pos + r.size)], pos + r.size)
  {
    hide Lawful, SpanAt, AllSpans, ReadList;
    LastRecord(c, data, start, |es|, pos);
    var r := c.read(data[pos..]);
    if r.Got? { MoreSpans(c, data, start, es, Entry(r.value, pos, pos + r.size)); }
  }

  lemma LastRecord<A(!new)>(c: Codec<A>, data: Bytes, start: nat, n: nat, pos: nat)
    requires Lawful(c) && start <= |data| && ReadList(c, n, data[start..]).Got?
    requires pos == start + ReadList(c, n, data[start..]).size <= |data|
    ensures var r, q := c.read(data[pos..]), ReadList(c, n + 1, data[start..]);
      && (r.Bad? ==> q.Bad?)
      && (r.Got? ==> q.Got? && pos + r.size == start + q.size <= |data|)
      && (r.Got? ==> SpanAt(c, data, start, Entry(r.value, pos, pos + r.size), n))
  {
    hide Lawful;
    var s := data[start..];
    assert s[pos - start..] == data[pos..];
    ListLocal(c, n, s, []);
    if c.read(data[pos..]).Got? { Same(c, data[pos..], []); }
  }

  lemma {:induction false} NoMore<A>(c: Codec<A>, i: nat, n: nat, s: Bytes)
    requires ReadList(c, i, s).Bad? && i <= n
    ensures ReadList(c, n, s).Bad?
  {
    if i < n { NoMore(c, i, n - 1, s); }
  }

  /** A counted array and where its records lie. */
  method ParseArray<A(!new)>(l: Limits, c: Codec<A>, data: Bytes, pos: nat)
    returns (ok: bool, es: seq<Entry<A>>, end: nat)
    requires l.Valid() && l.lo == 0 && Lawful(c) && pos <= |data|
    ensures ok <==> Counted(l, UnitC(), c).read(data[pos..]).Got?
    ensures ok ==> pos + 4 <= end <= |data| && Spans(c, data, pos + 4, es, end) && |es| == ReadLe32(data, pos)
    ensures ok ==> end == pos + Counted(l, UnitC(), c).read(data[pos..]).size
  {
    hide Lawful, ReadList, Spans;
    if pos + 4 > |data| { return false, [], pos; }
    var count := ReadLe32(data, pos);
    CountAt(data, pos);
    if !l.Admits(count, |data| - (pos + 4)) { return false, [], pos; }
    ok, es, end := ParseRecords(c, data, pos + 4, count);
    assert data[pos..][4..] == data[pos + 4..] && data[pos..][4..][0..] == data[pos + 4..];
    if ok { SpansEnd(c, data, pos + 4, es, end); }
  }

  lemma CountAt(data: Bytes, pos: nat)
    requires pos + 4 <= |data|
    ensures ReadLe32(data[pos..], 0) == ReadLe32(data, pos)
  {
    hide ReadLe32;
    ReadSame(data[pos..], 0, data, pos);
  }

  lemma SpansEnd<A(!new)>(c: Codec<A>, data: Bytes, pos: nat, es: seq<Entry<A>>, end: nat)
    requires pos <= |data| && Spans(c, data, pos, es, end)
    ensures ReadList(c, |es|, data[pos..]).Got? && end == pos + ReadList(c, |es|, data[pos..]).size <= |data|
  {
  }
}
