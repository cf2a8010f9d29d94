/** Streams that are written and cannot be read back, and a name that comes back as another's. */
module SchemaFailures {
  import opened Inflate
  import opened InternalFiles
  import opened LittleEndian
  import opened TableCatalog
  import opened Codecs
  import opened SchemaFields
  import opened SchemaStream
  import opened SchemaEdits
  import opened SchemaRuns
  import R = SchemaRecords
  import C = SchemaColumns

  /** An INTEGER column. */
  function IntColumn(name: Name): C.Column
  {
    C.Column(name, 1, C.INT32, C.INTEGER, 0, None, None, false)
  }

  /** ADD COLUMN is carried out on a stream that is read, and its outcome is not. */
  ghost predicate AddedAndLost(s: Bytes, c: C.Column, same: Same)
  {
    && ParseStream(s).Some? && AddColumnOn(ParseStream(s).value, c, same).Done?
    && ParseStream(ColumnCreated(s, c)).None?
  }

  /** 65000 columns are read; with the 65001st, which nothing refuses, the stream is read no more. */
  lemma TooManyColumns(same: Same)
    requires !same([65], [66])
    ensures exists s, c :: AddedAndLost(s, c, same)
  {
    hide ParseStream, C.ColumnC, R.IndexC, R.ConstraintC, UpToNul, ColumnCreated, AddColumnOn, BuildStream;
    var a, b := IntColumn([65]), IntColumn([66]);
    var cs := seq(R.MAX_SCHEMA_COLUMNS, i => a);
    BuildThenParse(cs, [], [], 1);
    var s := BuildStream(cs, [], [], 1);
    var x := ParseStream(s).value;
    NormalColumns(cs, x);
    LetterName();
    NoBlobs(1, x);
    Addable(x, b, same);
    var p := PiecesOf(s);
    PiecesParts(p, s);
    ColumnBehind(p, x, b);
    CreatedIs(s, b, p);
    assert AddedAndLost(s, b, same);
  }

  lemma LetterName()
    ensures UpToNul([65]) == [65]
  {
    UpToNulWhole([65]);
  }

  lemma NoBlobs(root: nat, x: Schema)
    requires root < 0x1_0000_0000 && x.roots == Le32(root) + Le32(NO_PAGE)
    ensures !HasBlobPages(x)
  {
    hide Le32, ReadLe32;
    Le32Reads(NO_PAGE);
    assert x.roots[4..8] == Le32(NO_PAGE)[0..4];
    ReadSame(x.roots, 4, Le32(NO_PAGE), 0);
  }

  lemma CreatedIs(s: Bytes, c: C.Column, p: Pieces)
    requires ParseStream(s).Some? && p == PiecesOf(s)
    ensures Counts32(ColumnAdded(p, c)) && ColumnCreated(s, c) == Assemble(ColumnAdded(p, c))
  {
    hide ParseStream, Assemble, Holds, C.ColumnC;
  }

  lemma NormalColumns(cs: seq<C.Column>, x: Schema)
    requires |x.columns| == |cs| && x.columns == NormList(C.ColumnC(), cs)
    ensures forall j :: 0 <= j < |cs| ==> x.columns[j].name == UpToNul(cs[j].name)
  {
    hide C.ColumnC, UpToNul;
    forall j | 0 <= j < |cs|
      ensures x.columns[j].name == UpToNul(cs[j].name)
    {
      ColumnNorm(cs[j]);
    }
  }

  lemma Addable(x: Schema, c: C.Column, same: Same)
    requires !HasBlobPages(x) && C.WritableColumn(c)
    requires forall j :: 0 <= j < |x.columns| ==> !same(x.columns[j].name, c.name)
    ensures AddColumnOn(x, c, same).Done?
  {
    hide Find, C.ColumnC;
  }

  // -- streams longer than any reader takes -----------------------------------------------------------------

  /** A record is longer than its name by the name's size byte and the number behind it, at least. */
  lemma LongRecord(c: C.Column)
    requires C.WritableColumn(c)
    ensures |C.ColumnC().write(c)| >= |c.name| + 5
  {
    hide C.RestC;
    var f := C.ColumnParts(c);
    assert C.ColumnC().write(c) == C.ColumnFieldsC().write(f);
    assert |PascalC(1).write(c.name)| == 1 + |c.name|;
    assert |Pair(U32C(), Bind(ByteC(), C.RestC)).write(f.1)| >= 4;
  }

  lemma {:induction false} LongList(cs: seq<C.Column>, n: nat)
    requires forall i :: 0 <= i < |cs| ==> |C.ColumnC().write(cs[i])| >= n
    ensures |WriteList(C.ColumnC(), cs)| >= n * |cs|
  {
    hide C.ColumnC;
    if cs != [] { LongList(cs[..|cs| - 1], n); }
  }

  lemma LongStream(cs: seq<C.Column>, root: nat)
    requires root < 0x1_0000_0000
    ensures |BuildStream(cs, [], [], root)| >= |WriteList(C.ColumnC(), cs)|
  {
    hide WriteList, C.ColumnC, R.IndexC, R.ConstraintC, Le32;
    assert |ColumnsC().write(((), cs))| >= |WriteList(C.ColumnC(), cs)|;
  }

  /** ADD COLUMN is carried out, its outcome is a stream that parses, and it is longer than any reader lets an internal
      file become, however many bytes it was compressed to. */
  ghost predicate AddedTooLong(s: Bytes, c: C.Column, same: Same)
  {
    && ParseStream(s).Some? && AddColumnOn(ParseStream(s).value, c, same).Done?
    && ParseStream(ColumnCreated(s, c)).Some? && BeyondAll(|ColumnCreated(s, c)|)
  }

  ghost predicate BeyondAll(size: nat)
  {
    forall n: nat :: size > Ceiling(n)
  }

  lemma HardLimit(size: nat)
    requires size > HARD_MAX
    ensures BeyondAll(size)
  {
  }

  /** The limit on columns lets a schema grow past the hard limit of the readers: with the 65000th column of a long name
      nothing is refused, and no reader takes the internal file of the stream, whatever it is compressed to and
      whatever the page size. */
  lemma HugeSchema(same: Same)
    requires !same(seq(255, i => 65), [66])
    ensures exists s, c :: AddedTooLong(s, c, same)
  {
    hide ParseStream, C.ColumnC, R.IndexC, R.ConstraintC, UpToNul, ColumnCreated, AddColumnOn, BuildStream, WriteList,
      PiecesOf, PiecesAre, Assemble, Ceiling, BeyondAll, InLimits, Holds, HasBlobPages;
    var name: Name := seq(255, i => 65);
    var a, b := IntColumn(name), IntColumn([66]);
    var cs := seq(R.MAX_SCHEMA_COLUMNS - 1, i => a);
    BuildThenParse(cs, [], [], 1);
    var s := BuildStream(cs, [], [], 1);
    var x := ParseStream(s).value;
    NormalColumns(cs, x);
    UpToNulWhole(name);
    NoBlobs(1, x);
    Addable(x, b, same);
    OneMoreLost(s, x, b);
    LongRecord(a);
    LongList(cs, 260);
    LongStream(cs, 1);
    HardLimit(|ColumnCreated(s, b)|);
    assert AddedTooLong(s, b, same);
  }

  /** The column added keeps the stream readable as such, and makes it no shorter. */
  lemma OneMoreLost(s: Bytes, x: Schema, c: C.Column)
    requires ParseStream(s) == Some(x) && |x.columns| < R.MAX_SCHEMA_COLUMNS && C.WritableColumn(c)
    ensures ParseStream(ColumnCreated(s, c)).Some? && |ColumnCreated(s, c)| >= |s|
  {
    hide ParseStream, C.ColumnC, R.IndexC, R.ConstraintC, ColumnCreated, Assemble, InLimits, Holds, PiecesAre;
    var p := PiecesOf(s);
    PiecesParts(p, s);
    ColumnBehind(p, x, c);
    CreatedIs(s, c, p);
    CreatedLonger(s, c, p);
  }

  lemma CreatedLonger(s: Bytes, c: C.Column, p: Pieces)
    requires Counts32(p) && Assemble(p) == s && Counts32(ColumnAdded(p, c))
    ensures |Assemble(ColumnAdded(p, c))| >= |s|
  {
    hide C.ColumnC, Le32;
  }

  /** A NOT NULL constraint on a column whose name has 255 bytes, the most a column name may have: the writer takes
      the table, and its stream is not read. */
  lemma LongNameLost(root: nat)
    requires root < 0x1_0000_0000
    ensures var name: Name := seq(255, i => 65);
      var k := R.Constraint(R.NOT_NULL, [67], 3, 2, R.ColumnBody([84], name));
      && Serializable([IntColumn(name)], [], [k])
      && ParseStream(BuildStream([IntColumn(name)], [], [k], root)).None?
  {
    hide ParseStream, BuildStream, C.ColumnC, R.IndexC, R.ConstraintC;
    var name: Name := seq(255, i => 65);
    var k := R.Constraint(R.NOT_NULL, [67], 3, 2, R.ColumnBody([84], name));
    BuildThenParse([IntColumn(name)], [], [k], root);
    assert !ShortNames([k]) by { assert [k][0].body.column == name; }
  }

  /** A second column "A": ADD COLUMN takes the name "A" with a NUL and another letter behind it. */
  lemma TwoColumnsAlike(s: Bytes, same: Same)
    requires ParseStream(s).Some? && !HasBlobPages(ParseStream(s).value) && Equivalence(same)
    requires ParseStream(s).value.columns == [C.NormColumn(IntColumn([65]))] && !same([65], [65, 0, 66])
    ensures var r := AddColumnOn(ParseStream(s).value, IntColumn([65, 0, 66]), same);
      r.Done? && !Distinct(r.value.columns, same)
  {
    hide ParseStream, UpToNul, HasBlobPages, Equivalence;
    var x := ParseStream(s).value;
    LetterName();
    assert UpToNul([65, 0, 66]) == [65] by { CutName(); }
    Addable(x, IntColumn([65, 0, 66]), same);
    var cs := AddColumnOn(x, IntColumn([65, 0, 66]), same).value.columns;
    assert cs[0].name == [65] == cs[1].name;
    assert same([65], [65]) by { Reflexive(same, [65]); }
  }

  lemma Reflexive(same: Same, a: Name)
    requires Equivalence(same)
    ensures same(a, a)
  {
  }

  lemma CutName()
    ensures UpToNul([65, 0, 66]) == [65]
  {
    var s: Name := [65, 0, 66];
    assert s[1..] == [0, 66];
  }
}
