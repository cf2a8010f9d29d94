/** The records of a schema stream: column definitions, index records and constraint records. */
module SchemaRecords {
  import opened Bits
  import opened Inflate
  import opened LittleEndian
  import opened TableCatalog
  import opened Codecs
  import opened SchemaFields

  const MAX_SCHEMA_COLUMNS: nat := 65000
  const MAX_INDEXED_SIZE: nat := 20

  // -- index records --------------------------------------------------------------------------------------

  datatype IndexColumn = IndexColumn(name: Name, descending: bool, caseInsensitive: bool)
  {
    function Norm(): IndexColumn { this.(name := UpToNul(name)) }
  }

  type IndexColumnFields = (Name, ((bool, bool), ()))

  function IndexColumnOf(p: IndexColumnFields): Read<IndexColumn> { Got(IndexColumn(p.0, p.1.0.0, p.1.0.1), 0) }

  function IndexColumnParts(c: IndexColumn): IndexColumnFields { (c.name, ((c.descending, c.caseInsensitive), ())) }

  function NormIndexColumn(c: IndexColumn): IndexColumn { c.Norm() }

  function IndexColumnFieldsC(): Codec<IndexColumnFields>
  {
    Pair(PascalC(1), Pair(Pair(FlagC(), FlagC()), ConstC(Le32(MAX_INDEXED_SIZE))))
  }

  /** A covered column: its name, its two flags and the one size there is. */
  function IndexColumnC(): Codec<IndexColumn>
  {
    As(IndexColumnFieldsC(), IndexColumnOf, IndexColumnParts, Always<IndexColumn>, NormIndexColumn)
  }

  lemma IndexColumnFieldsExact()
    ensures Exact(IndexColumnFieldsC(), 7)
  {
    hide Lawful, AtLeast, Restores, Pair, PascalC, FlagC, ConstC;
    PascalLawful(1);
    FlagLawful();
    ConstLawful(Le32(MAX_INDEXED_SIZE));
    PairExact(FlagC(), 1, FlagC(), 1);
    PairExact(Pair(FlagC(), FlagC()), 2, ConstC(Le32(MAX_INDEXED_SIZE)), 4);
    PairExact(PascalC(1), 1, Pair(Pair(FlagC(), FlagC()), ConstC(Le32(MAX_INDEXED_SIZE))), 6);
  }

  lemma IndexColumnMatch()
    ensures Matches(IndexColumnFieldsC(), IndexColumnOf, IndexColumnParts, Always<IndexColumn>, NormIndexColumn)
    ensures Undone(IndexColumnOf, IndexColumnParts)
  {
    hide UpToNul;
    forall c: IndexColumn
      ensures IndexColumnOf(IndexColumnFieldsC().norm(IndexColumnParts(c))) == Got(NormIndexColumn(c), 0)
    {
      if c.descending {}
      if c.caseInsensitive {}
    }
    forall p: IndexColumnFields ensures IndexColumnParts(IndexColumnOf(p).value) == p { assert p.1.1 == (); }
  }

  lemma IndexColumnExact()
    ensures Exact(IndexColumnC(), 7)
  {
    hide Exact, Matches, Undone, IndexColumnFieldsC;
    IndexColumnFieldsExact();
    IndexColumnMatch();
    AsExact(IndexColumnFieldsC(), 7, IndexColumnOf, IndexColumnParts, Always<IndexColumn>, NormIndexColumn);
  }

  /** An index: its name, object id, flags, root page and covered columns. */
  datatype IndexRecord = IndexRecord(name: Name, objectId: nat, unique: bool, primary: bool, root: nat,
                                     columns: seq<IndexColumn>)

  type IndexFields = (Name, (nat, ((), ((bool, bool), (nat, seq<IndexColumn>)))))

  function IndexOf(p: IndexFields): Read<IndexRecord>
  {
    Got(IndexRecord(p.0, p.1.0, p.1.1.1.0.0, p.1.1.1.0.1, p.1.1.1.1.0, p.1.1.1.1.1), 0)
  }

  function IndexParts(r: IndexRecord): IndexFields
  {
    (r.name, (r.objectId, ((), ((r.unique, r.primary), (r.root, r.columns)))))
  }

  function NormIndex(r: IndexRecord): IndexRecord
  {
    r.(name := UpToNul(r.name), columns := NormList(IndexColumnC(), r.columns))
  }

  const COVERED_LIMITS: Limits := Limits(1, MAX_SCHEMA_COLUMNS, 1, 0)

  function CoveredC(): Codec<(nat, seq<IndexColumn>)>
  {
    Counted(COVERED_LIMITS, U32C(), IndexColumnC())
  }

  lemma CoveredExact()
    ensures Exact(CoveredC(), 4)
  {
    hide Lawful, AtLeast, Restores, Counted, U32C, IndexColumnC;
    U32Lawful();
    IndexColumnExact();
    CountedExact(COVERED_LIMITS, U32C(), 4, IndexColumnC(), 7);
  }

  function IndexFieldsC(): Codec<IndexFields>
  {
    Pair(PascalC(1), Pair(U32C(), Pair(ConstC([0]), Pair(Pair(FlagC(), FlagC()), CoveredC()))))
  }

  lemma IndexFieldsExact()
    ensures Exact(IndexFieldsC(), 12)
  {
    hide Lawful, AtLeast, Restores, Pair, PascalC, FlagC, U32C, ConstC, CoveredC;
    PascalLawful(1);
    U32Lawful();
    ConstLawful([0]);
    FlagLawful();
    CoveredExact();
    var flags := Pair(FlagC(), FlagC());
    PairExact(FlagC(), 1, FlagC(), 1);
    PairExact(flags, 2, CoveredC(), 4);
    PairExact(ConstC([0]), 1, Pair(flags, CoveredC()), 6);
    PairExact(U32C(), 4, Pair(ConstC([0]), Pair(flags, CoveredC())), 7);
    PairExact(PascalC(1), 1, Pair(U32C(), Pair(ConstC([0]), Pair(flags, CoveredC()))), 11);
  }

  function IndexC(): Codec<IndexRecord>
  {
    As(IndexFieldsC(), IndexOf, IndexParts, Always<IndexRecord>, NormIndex)
  }

  lemma IndexMatch()
    ensures Matches(IndexFieldsC(), IndexOf, IndexParts, Always<IndexRecord>, NormIndex)
    ensures Undone(IndexOf, IndexParts)
  {
    hide UpToNul, NormList, IndexColumnC;
    forall r: IndexRecord
      ensures IndexOf(IndexFieldsC().norm(IndexParts(r))) == Got(NormIndex(r), 0)
    {
      if r.unique {}
      if r.primary {}
    }
    forall p: IndexFields ensures IndexParts(IndexOf(p).value) == p { assert p.1.1.0 == (); }
  }

  lemma IndexExact()
    ensures Exact(IndexC(), 12)
  {
    hide Exact, Matches, Undone, IndexFieldsC;
    IndexFieldsExact();
    IndexMatch();
    AsExact(IndexFieldsC(), 12, IndexOf, IndexParts, Always<IndexRecord>, NormIndex);
  }

  /** Every index record comes back. */
  lemma IndexSound(r: IndexRecord)
    ensures IndexC().sound(r)
  {
    hide Pair, IndexColumnC, Counted;
    AsParts(IndexFieldsC(), IndexOf, IndexParts, Always<IndexRecord>, NormIndex, r);
    CountedParts(COVERED_LIMITS, U32C(), IndexColumnC(), (r.root, r.columns));
    forall i | 0 <= i < |r.columns| ensures IndexColumnC().sound(r.columns[i]) { IndexColumnSound(r.columns[i]); }
    var flags := Pair(FlagC(), FlagC());
    assert CoveredC().sound((r.root, r.columns));
    PairParts(FlagC(), FlagC(), (r.unique, r.primary));
    PairParts(flags, CoveredC(), ((r.unique, r.primary), (r.root, r.columns)));
    PairParts(ConstC([0]), Pair(flags, CoveredC()), IndexParts(r).1.1);
    PairParts(U32C(), Pair(ConstC([0]), Pair(flags, CoveredC())), IndexParts(r).1);
    PairParts(PascalC(1), Pair(U32C(), Pair(ConstC([0]), Pair(flags, CoveredC()))), IndexParts(r));
  }

  lemma IndexColumnSound(c: IndexColumn)
    ensures IndexColumnC().sound(c)
  {
    hide Pair;
    var size := ConstC(Le32(MAX_INDEXED_SIZE));
    AsParts(IndexColumnFieldsC(), IndexColumnOf, IndexColumnParts, Always<IndexColumn>, NormIndexColumn, c);
    PairParts(FlagC(), FlagC(), (c.descending, c.caseInsensitive));
    PairParts(Pair(FlagC(), FlagC()), size, IndexColumnParts(c).1);
    PairParts(PascalC(1), Pair(Pair(FlagC(), FlagC()), size), IndexColumnParts(c));
  }

  // -- constraint records ---------------------------------------------------------------------------------

  const PRIMARY_KEY: byte := 0
  const UNIQUE: byte := 2
  const NOT_NULL: byte := 3
  const CHECK: byte := 4

  /** A bound: its base type and, when it is present, its bytes. */
  type Typed = (byte, Option<Bytes>)

  datatype Body =
    | KeyBody(table: Name, index: Name, columns: seq<(nat, Name)>)
    | ColumnBody(table: Name, column: Name)
    | CheckBody(table: Name, column: Name, min: Typed, max: Typed)

  /** A constraint: its kind, name, object id and owner, and the body the kind selects. */
  datatype Constraint = Constraint(kind: byte, name: Name, objectId: nat, owner: nat, body: Body)

  type KeyFields = ((), (Name, (Name, ((), seq<(nat, Name)>))))

  function KeyOf(p: KeyFields): Read<Body> { Got(KeyBody(p.1.0, p.1.1.0, p.1.1.1.1), 0) }

  function KeyParts(b: Body): KeyFields
  {
    ((), (b.table, if b.KeyBody? then (b.index, ((), b.columns)) else ([], ((), []))))
  }

  function IsKey(b: Body): bool { b.KeyBody? }

  const KEY_LIMITS: Limits := Limits(0, MAX_SCHEMA_COLUMNS, 1, 0)

  function KeyColumnC(): Codec<(nat, Name)>
  {
    Pair(U32C(), SizedC(true, 1))
  }

  function KeyColumnsC(): Codec<((), seq<(nat, Name)>)>
  {
    Counted(KEY_LIMITS, UnitC(), KeyColumnC())
  }

  lemma KeyColumnsExact()
    ensures Exact(KeyColumnsC(), 4)
  {
    hide Lawful, AtLeast, Restores, Counted, Pair, U32C, SizedC, UnitC;
    U32Lawful();
    SizedLawful(true, 1);
    UnitLawful();
    AtLeastNothing(UnitC());
    PairExact(U32C(), 4, SizedC(true, 1), 2);
    CountedExact(KEY_LIMITS, UnitC(), 0, KeyColumnC(), 6);
  }

  function KeyFieldsC(): Codec<KeyFields>
  {
    Pair(ConstC([1, 0, 0, 0, 0]), Pair(SizedC(true, 0), Pair(SizedC(true, 1), KeyColumnsC())))
  }

  lemma KeyFieldsExact()
    ensures Exact(KeyFieldsC(), 13)
  {
    hide Lawful, AtLeast, Restores, Pair, SizedC, ConstC, KeyColumnsC;
    ConstLawful([1, 0, 0, 0, 0]);
    SizedLawful(true, 0);
    SizedLawful(true, 1);
    KeyColumnsExact();
    PairExact(SizedC(true, 1), 2, KeyColumnsC(), 4);
    PairExact(SizedC(true, 0), 2, Pair(SizedC(true, 1), KeyColumnsC()), 6);
    PairExact(ConstC([1, 0, 0, 0, 0]), 5, Pair(SizedC(true, 0), Pair(SizedC(true, 1), KeyColumnsC())), 8);
  }

  /** Every name of a body, up to its first NUL. */
  function NormBody(b: Body): Body
  {
    match b
    case KeyBody(t, i, cs) => KeyBody(UpToNul(t), UpToNul(i), NormList(KeyColumnC(), cs))
    case ColumnBody(t, c) => ColumnBody(UpToNul(t), UpToNul(c))
    case CheckBody(t, c, min, max) => CheckBody(UpToNul(t), UpToNul(c), min, max)
  }

  /** The body of a PRIMARY KEY or UNIQUE record. */
  function KeyC(): Codec<Body>
  {
    As(KeyFieldsC(), KeyOf, KeyParts, IsKey, NormBody)
  }

  lemma KeyMatch()
    ensures Matches(KeyFieldsC(), KeyOf, KeyParts, IsKey, NormBody) && Undone(KeyOf, KeyParts)
  {
    hide UpToNul, NormList, KeyColumnC;
    forall b: Body | IsKey(b)
      ensures KeyOf(KeyFieldsC().norm(KeyParts(b))) == Got(NormBody(b), 0)
    {
    }
    forall p: KeyFields ensures KeyParts(KeyOf(p).value) == p { assert p.0 == () && p.1.1.1.0 == (); }
  }

  lemma KeyExact()
    ensures Exact(KeyC(), 5)
  {
    hide Exact, Matches, Undone, KeyFieldsC;
    KeyFieldsExact();
    KeyMatch();
    AsExact(KeyFieldsC(), 13, KeyOf, KeyParts, IsKey, NormBody);
    Lower(KeyC(), 13, 5);
  }

  lemma Lower<T(!new)>(c: Codec<T>, n: nat, m: nat)
    requires Exact(c, n) && m <= n
    ensures Exact(c, m)
  {
  }

  type ColumnFields = ((), (Name, Name))

  function ColumnBodyOf(p: ColumnFields): Read<Body> { Got(ColumnBody(p.1.0, p.1.1), 0) }

  function ColumnBodyParts(b: Body): ColumnFields { ((), (b.table, if b.KeyBody? then [] else b.column)) }

  function IsColumn(b: Body): bool { b.ColumnBody? }

  function ColumnFieldsC(): Codec<ColumnFields>
  {
    Pair(ConstC([1, 0]), Pair(SizedC(false, 1), SizedC(false, 1)))
  }

  lemma ColumnFieldsExact()
    ensures Exact(ColumnFieldsC(), 6)
  {
    hide Lawful, AtLeast, Restores, Pair, SizedC, ConstC;
    ConstLawful([1, 0]);
    SizedLawful(false, 1);
    PairExact(SizedC(false, 1), 2, SizedC(false, 1), 2);
    PairExact(ConstC([1, 0]), 2, Pair(SizedC(false, 1), SizedC(false, 1)), 4);
  }

  /** The body of a NOT NULL record. */
  function NotNullC(): Codec<Body>
  {
    As(ColumnFieldsC(), ColumnBodyOf, ColumnBodyParts, IsColumn, NormBody)
  }

  lemma NotNullMatch()
    ensures Matches(ColumnFieldsC(), ColumnBodyOf, ColumnBodyParts, IsColumn, NormBody)
    ensures Undone(ColumnBodyOf, ColumnBodyParts)
  {
    hide UpToNul, NormList, KeyColumnC;
    forall b: Body | IsColumn(b)
      ensures ColumnBodyOf(ColumnFieldsC().norm(ColumnBodyParts(b))) == Got(NormBody(b), 0)
    {
    }
    forall p: ColumnFields ensures ColumnBodyParts(ColumnBodyOf(p).value) == p { assert p.0 == (); }
  }

  lemma NotNullExact()
    ensures Exact(NotNullC(), 5)
  {
    hide Exact, Matches, Undone, ColumnFieldsC;
    ColumnFieldsExact();
    NotNullMatch();
    AsExact(ColumnFieldsC(), 6, ColumnBodyOf, ColumnBodyParts, IsColumn, NormBody);
    Lower(NotNullC(), 6, 5);
  }

  type CheckFields = (ColumnFields, (Typed, Typed))

  function CheckOf(p: CheckFields): Read<Body> { Got(CheckBody(p.0.1.0, p.0.1.1, p.1.0, p.1.1), 0) }

  function CheckParts(b: Body): CheckFields
  {
    if b.CheckBody? then (((), (b.table, b.column)), (b.min, b.max))
    else (((), ([], [])), ((0, None), (0, None)))
  }

  function IsCheck(b: Body): bool { b.CheckBody? }

  function TypedC(): Codec<Typed>
  {
    Pair(ByteC(), OptionC())
  }

  function CheckFieldsC(): Codec<CheckFields>
  {
    Pair(ColumnFieldsC(), Pair(TypedC(), TypedC()))
  }

  lemma CheckFieldsExact()
    ensures Exact(CheckFieldsC(), 10)
  {
    hide Lawful, AtLeast, Restores, Pair, ColumnFieldsC, ByteC, OptionC;
    ByteLawful();
    OptionLawful();
    ColumnFieldsExact();
    PairExact(ByteC(), 1, OptionC(), 1);
    PairExact(TypedC(), 2, TypedC(), 2);
    PairExact(ColumnFieldsC(), 6, Pair(TypedC(), TypedC()), 4);
  }

  /** The body of a CHECK record. */
  function CheckC(): Codec<Body>
  {
    As(CheckFieldsC(), CheckOf, CheckParts, IsCheck, NormBody)
  }

  lemma TypedBack(v: Typed)
    ensures TypedC().norm(v) == v
  {
  }

  lemma CheckMatch()
    ensures Matches(CheckFieldsC(), CheckOf, CheckParts, IsCheck, NormBody) && Undone(CheckOf, CheckParts)
  {
    hide UpToNul, NormList, KeyColumnC, TypedC;
    forall b: Body | IsCheck(b)
      ensures CheckOf(CheckFieldsC().norm(CheckParts(b))) == Got(NormBody(b), 0)
    {
      TypedBack(b.min);
      TypedBack(b.max);
    }
    forall p: CheckFields ensures CheckParts(CheckOf(p).value) == p { assert p.0.0 == (); }
  }

  lemma CheckExact()
    ensures Exact(CheckC(), 5)
  {
    hide Exact, Matches, Undone, CheckFieldsC;
    CheckFieldsExact();
    CheckMatch();
    AsExact(CheckFieldsC(), 10, CheckOf, CheckParts, IsCheck, NormBody);
    Lower(CheckC(), 10, 5);
  }

  /** Of an unknown kind nothing is read or written. */
  function RefusedC(): Codec<Body>
  {
    Codec((s: Bytes) => Bad, (b: Body) => [], (b: Body) => false, (b: Body) => false, NormBody)
  }

  lemma RefusedExact()
    ensures Exact(RefusedC(), 5)
  {
  }

  function BodyC(kind: byte): Codec<Body>
  {
    if kind == PRIMARY_KEY || kind == UNIQUE then KeyC()
    else if kind == NOT_NULL then NotNullC()
    else if kind == CHECK then CheckC()
    else RefusedC()
  }

  lemma BodyExact(kind: byte)
    ensures Exact(BodyC(kind), 5)
  {
    hide Exact, KeyC, NotNullC, CheckC, RefusedC;
    KeyExact();
    NotNullExact();
    CheckExact();
    RefusedExact();
  }

  /** The header every kind shares. */
  type Header = (Name, (nat, ((), nat)))

  function HeaderC(): Codec<Header>
  {
    Pair(PascalC(1), Pair(U32C(), Pair(ConstC([0, 0, 0, 0, 0, 0, 0, 0]), U32C())))
  }

  lemma HeaderExact()
    ensures Exact(HeaderC(), 17)
  {
    hide Lawful, AtLeast, Restores, Pair, PascalC, U32C, ConstC;
    var zeros := [0, 0, 0, 0, 0, 0, 0, 0];
    PascalLawful(1);
    U32Lawful();
    ConstLawful(zeros);
    PairExact(ConstC(zeros), 8, U32C(), 4);
    PairExact(U32C(), 4, Pair(ConstC(zeros), U32C()), 12);
    PairExact(PascalC(1), 1, Pair(U32C(), Pair(ConstC(zeros), U32C())), 16);
  }

  function RestC(kind: byte): Codec<(Header, Body)>
  {
    Pair(HeaderC(), BodyC(kind))
  }

  type ConstraintFields = (byte, (Header, Body))

  function ConstraintOf(p: ConstraintFields): Read<Constraint>
  {
    Got(Constraint(p.0, p.1.0.0, p.1.0.1.0, p.1.0.1.1.1, p.1.1), 0)
  }

  function ConstraintParts(c: Constraint): ConstraintFields
  {
    (c.kind, ((c.name, (c.objectId, ((), c.owner))), c.body))
  }

  function NormConstraint(c: Constraint): Constraint
  {
    c.(name := UpToNul(c.name), body := NormBody(c.body))
  }

  function ConstraintC(): Codec<Constraint>
  {
    As(Bind(ByteC(), RestC), ConstraintOf, ConstraintParts, Always<Constraint>, NormConstraint)
  }

  lemma BodyNorm(kind: byte, b: Body)
    ensures BodyC(kind).norm(b) == NormBody(b)
  {
    hide NormBody;
  }

  lemma ConstraintMatch()
    ensures Matches(Bind(ByteC(), RestC), ConstraintOf, ConstraintParts, Always<Constraint>, NormConstraint)
    ensures Undone(ConstraintOf, ConstraintParts) && Steady(ByteC(), RestC)
  {
    hide UpToNul, NormBody, BodyC;
    forall c: Constraint
      ensures ConstraintOf(Bind(ByteC(), RestC).norm(ConstraintParts(c))) == Got(NormConstraint(c), 0)
    {
      BodyNorm(c.kind, c.body);
    }
    forall p: ConstraintFields ensures ConstraintParts(ConstraintOf(p).value) == p { assert p.1.0.1.1.0 == (); }
  }

  lemma ConstraintExact()
    ensures Exact(ConstraintC(), 23)
  {
    hide Lawful, AtLeast, Restores, Matches, Undone, Steady, ByteC, RestC, Bind;
    ByteLawful();
    forall kind: byte ensures Exact(RestC(kind), 22) { RestExact(kind); }
    ConstraintMatch();
    BindExact(ByteC(), 1, RestC, 22);
    AsExact(Bind(ByteC(), RestC), 23, ConstraintOf, ConstraintParts, Always<Constraint>, NormConstraint);
  }

  lemma RestExact(kind: byte)
    ensures Exact(RestC(kind), 22)
  {
    hide Exact, HeaderC, BodyC;
    HeaderExact();
    BodyExact(kind);
    PairExact(HeaderC(), 17, BodyC(kind), 5);
  }

  /** Of the constraints the writer takes, those come back whose NOT NULL or CHECK body names no table and no column
      of 255 bytes. */
  lemma ConstraintComesBack(c: Constraint)
    requires ConstraintC().accepts(c)
    ensures ConstraintC().sound(c) <==> (c.body.KeyBody? || (|c.body.table| <= 254 && |c.body.column| <= 254))
  {
    hide *;
    ConstraintSound(c);
    BodySound(c.kind, c.body);
  }

  lemma ConstraintSound(c: Constraint)
    ensures ConstraintC().sound(c) == BodyC(c.kind).sound(c.body)
    ensures ConstraintC().accepts(c) ==> BodyC(c.kind).accepts(c.body)
  {
    hide BodyC;
    var h: Header := (c.name, (c.objectId, ((), c.owner)));
    BindParts(ByteC(), RestC, ConstraintParts(c));
    PairParts(HeaderC(), BodyC(c.kind), (h, c.body));
    assert HeaderC().sound(h);
  }

  lemma BodySound(kind: byte, b: Body)
    requires BodyC(kind).accepts(b)
    ensures BodyC(kind).sound(b) <==> (b.KeyBody? || (|b.table| <= 254 && |b.column| <= 254))
  {
    hide KeyFieldsC, ColumnFieldsC, CheckFieldsC, As;
    AsParts(KeyFieldsC(), KeyOf, KeyParts, IsKey, NormBody, b);
    AsParts(ColumnFieldsC(), ColumnBodyOf, ColumnBodyParts, IsColumn, NormBody, b);
    AsParts(CheckFieldsC(), CheckOf, CheckParts, IsCheck, NormBody, b);
    if b.KeyBody? {
      KeySound(b);
    } else if b.CheckBody? {
      CheckSound(b);
    } else {
      ColumnSound(b.table, b.column);
    }
  }

  lemma KeySound(b: Body)
    requires b.KeyBody?
    ensures KeyFieldsC().sound(KeyParts(b))
  {
    hide Pair, KeyColumnsC, SizedC;
    KeyColumnsSound(b.columns);
    var columns: ((), seq<(nat, Name)>) := ((), b.columns);
    PairParts(SizedC(true, 1), KeyColumnsC(), (b.index, columns));
    PairParts(SizedC(true, 0), Pair(SizedC(true, 1), KeyColumnsC()), (b.table, (b.index, columns)));
    PairParts(ConstC([1, 0, 0, 0, 0]), Pair(SizedC(true, 0), Pair(SizedC(true, 1), KeyColumnsC())), KeyParts(b));
    SizedSound(true, 0, b.table);
    SizedSound(true, 1, b.index);
  }

  lemma SizedSound(wide: bool, min: nat, x: Name)
    ensures SizedC(wide, min).sound(x) <==> wide || |x| <= 254
  {
  }

  lemma ColumnSound(table: Name, column: Name)
    ensures ColumnFieldsC().sound(((), (table, column))) <==> |table| <= 254 && |column| <= 254
  {
    hide Pair, SizedC;
    PairParts(SizedC(false, 1), SizedC(false, 1), (table, column));
    PairParts(ConstC([1, 0]), Pair(SizedC(false, 1), SizedC(false, 1)), ((), (table, column)));
    SizedSound(false, 1, table);
    SizedSound(false, 1, column);
  }

  lemma CheckSound(b: Body)
    requires b.CheckBody?
    ensures CheckFieldsC().sound(CheckParts(b)) <==> |b.table| <= 254 && |b.column| <= 254
  {
    hide Pair, ColumnFieldsC, TypedC;
    TypedSound(b.min);
    TypedSound(b.max);
    PairParts(TypedC(), TypedC(), (b.min, b.max));
    PairParts(ColumnFieldsC(), Pair(TypedC(), TypedC()), CheckParts(b));
    ColumnSound(b.table, b.column);
  }

  lemma KeyColumnsSound(cs: seq<(nat, Name)>)
    ensures KeyColumnsC().sound(((), cs))
  {
    hide Pair, SizedC, Counted;
    CountedParts(KEY_LIMITS, UnitC(), KeyColumnC(), ((), cs));
    forall i | 0 <= i < |cs|
      ensures KeyColumnC().sound(cs[i])
    {
      PairParts(U32C(), SizedC(true, 1), cs[i]);
      SizedSound(true, 1, cs[i].1);
    }
  }

  lemma TypedSound(v: Typed)
    ensures TypedC().sound(v)
  {
    hide OptionC;
    PairParts(ByteC(), OptionC(), v);
    OptionSound(v.1);
  }

  // -- what the writer takes ------------------------------------------------------------------------------

  predicate FitsLength(x: Name) { 1 <= |x| <= 255 }

  predicate Fits32(n: nat) { n < 0x1_0000_0000 }

  predicate WritableIndex(r: IndexRecord)
  {
    && FitsLength(r.name) && Fits32(r.objectId) && Fits32(r.root) && 1 <= |r.columns| <= MAX_SCHEMA_COLUMNS
    && forall i :: 0 <= i < |r.columns| ==> FitsLength(r.columns[i].name)
  }

  lemma IndexAccepted(r: IndexRecord)
    ensures IndexC().accepts(r) <==> WritableIndex(r)
  {
    hide Pair, FlagC, CoveredC;
    AsParts(IndexFieldsC(), IndexOf, IndexParts, Always<IndexRecord>, NormIndex, r);
    CoveredAccepted(r.root, r.columns);
    FlagAccepted(r.unique);
    FlagAccepted(r.primary);
    var flags := Pair(FlagC(), FlagC());
    PairParts(FlagC(), FlagC(), (r.unique, r.primary));
    PairParts(flags, CoveredC(), ((r.unique, r.primary), (r.root, r.columns)));
    PairParts(ConstC([0]), Pair(flags, CoveredC()), IndexParts(r).1.1);
    PairParts(U32C(), Pair(ConstC([0]), Pair(flags, CoveredC())), IndexParts(r).1);
    PairParts(PascalC(1), Pair(U32C(), Pair(ConstC([0]), Pair(flags, CoveredC()))), IndexParts(r));
  }

  lemma CoveredAccepted(root: nat, columns: seq<IndexColumn>)
    ensures CoveredC().accepts((root, columns)) <==>
      && Fits32(root) && 1 <= |columns| <= MAX_SCHEMA_COLUMNS
      && forall i :: 0 <= i < |columns| ==> FitsLength(columns[i].name)
  {
    hide IndexColumnC, Counted;
    CountedParts(COVERED_LIMITS, U32C(), IndexColumnC(), (root, columns));
    forall i | 0 <= i < |columns|
      ensures IndexColumnC().accepts(columns[i]) <==> FitsLength(columns[i].name)
    {
      IndexColumnAccepted(columns[i]);
    }
  }

  lemma IndexColumnAccepted(c: IndexColumn)
    ensures IndexColumnC().accepts(c) <==> FitsLength(c.name)
  {
    hide Pair, FlagC;
    var size := ConstC(Le32(MAX_INDEXED_SIZE));
    FlagAccepted(c.descending);
    FlagAccepted(c.caseInsensitive);
    AsParts(IndexColumnFieldsC(), IndexColumnOf, IndexColumnParts, Always<IndexColumn>, NormIndexColumn, c);
    PairParts(FlagC(), FlagC(), (c.descending, c.caseInsensitive));
    PairParts(Pair(FlagC(), FlagC()), size, IndexColumnParts(c).1);
    PairParts(PascalC(1), Pair(Pair(FlagC(), FlagC()), size), IndexColumnParts(c));
  }

  predicate WritableTyped(v: Typed) { v.1.Some? ==> |v.1.value| <= 65535 }

  predicate WritableBody(kind: byte, b: Body)
  {
    match b
    case KeyBody(t, i, cs) =>
      && (kind == PRIMARY_KEY || kind == UNIQUE) && |t| <= 255 && FitsLength(i) && |cs| <= MAX_SCHEMA_COLUMNS
      && forall k :: 0 <= k < |cs| ==> Fits32(cs[k].0) && FitsLength(cs[k].1)
    case ColumnBody(t, c) => kind == NOT_NULL && FitsLength(t) && FitsLength(c)
    case CheckBody(t, c, min, max) =>
      kind == CHECK && FitsLength(t) && FitsLength(c) && WritableTyped(min) && WritableTyped(max)
  }

  predicate WritableConstraint(c: Constraint)
  {
    FitsLength(c.name) && Fits32(c.objectId) && Fits32(c.owner) && WritableBody(c.kind, c.body)
  }

  lemma ConstraintAccepted(c: Constraint)
    ensures ConstraintC().accepts(c) <==> WritableConstraint(c)
  {
    hide BodyC, Pair, Bind, WritableBody;
    var h: Header := (c.name, (c.objectId, ((), c.owner)));
    var zeros := ConstC([0, 0, 0, 0, 0, 0, 0, 0]);
    AsParts(Bind(ByteC(), RestC), ConstraintOf, ConstraintParts, Always<Constraint>, NormConstraint, c);
    BindParts(ByteC(), RestC, ConstraintParts(c));
    PairParts(HeaderC(), BodyC(c.kind), (h, c.body));
    PairParts(zeros, U32C(), ((), c.owner));
    PairParts(U32C(), Pair(zeros, U32C()), (c.objectId, ((), c.owner)));
    PairParts(PascalC(1), Pair(U32C(), Pair(zeros, U32C())), h);
    BodyAccepted(c.kind, c.body);
  }

  lemma BodyAccepted(kind: byte, b: Body)
    ensures BodyC(kind).accepts(b) <==> WritableBody(kind, b)
  {
    hide KeyFieldsC, ColumnFieldsC, CheckFieldsC, As;
    AsParts(KeyFieldsC(), KeyOf, KeyParts, IsKey, NormBody, b);
    AsParts(ColumnFieldsC(), ColumnBodyOf, ColumnBodyParts, IsColumn, NormBody, b);
    AsParts(CheckFieldsC(), CheckOf, CheckParts, IsCheck, NormBody, b);
    if b.KeyBody? {
      KeyAccepted(b);
    } else if b.CheckBody? {
      CheckAccepted(b);
    } else {
      ColumnBodyAccepted(b.table, b.column);
    }
  }

  lemma KeyAccepted(b: Body)
    requires b.KeyBody?
    ensures KeyFieldsC().accepts(KeyParts(b)) <==> WritableBody(UNIQUE, b)
  {
    hide Pair, KeyColumnsC;
    KeyColumnsAccepted(b.columns);
    var columns: ((), seq<(nat, Name)>) := ((), b.columns);
    PairParts(SizedC(true, 1), KeyColumnsC(), (b.index, columns));
    PairParts(SizedC(true, 0), Pair(SizedC(true, 1), KeyColumnsC()), (b.table, (b.index, columns)));
    PairParts(ConstC([1, 0, 0, 0, 0]), Pair(SizedC(true, 0), Pair(SizedC(true, 1), KeyColumnsC())), KeyParts(b));
  }

  lemma KeyColumnsAccepted(cs: seq<(nat, Name)>)
    ensures KeyColumnsC().accepts(((), cs)) <==>
      |cs| <= MAX_SCHEMA_COLUMNS && forall k :: 0 <= k < |cs| ==> Fits32(cs[k].0) && FitsLength(cs[k].1)
  {
    hide Pair, Counted;
    CountedParts(KEY_LIMITS, UnitC(), KeyColumnC(), ((), cs));
    forall k | 0 <= k < |cs|
      ensures KeyColumnC().accepts(cs[k]) <==> Fits32(cs[k].0) && FitsLength(cs[k].1)
    {
      PairParts(U32C(), SizedC(true, 1), cs[k]);
    }
  }

  lemma ColumnBodyAccepted(table: Name, column: Name)
    ensures ColumnFieldsC().accepts(((), (table, column))) <==> FitsLength(table) && FitsLength(column)
  {
    hide Pair;
    PairParts(SizedC(false, 1), SizedC(false, 1), (table, column));
    PairParts(ConstC([1, 0]), Pair(SizedC(false, 1), SizedC(false, 1)), ((), (table, column)));
  }

  lemma CheckAccepted(b: Body)
    requires b.CheckBody?
    ensures CheckFieldsC().accepts(CheckParts(b)) <==> WritableBody(CHECK, b)
  {
    hide Pair, ColumnFieldsC, OptionC;
    OptionAccepted(b.min.1);
    OptionAccepted(b.max.1);
    PairParts(ByteC(), OptionC(), b.min);
    PairParts(ByteC(), OptionC(), b.max);
    PairParts(TypedC(), TypedC(), (b.min, b.max));
    PairParts(ColumnFieldsC(), Pair(TypedC(), TypedC()), CheckParts(b));
    ColumnBodyAccepted(b.table, b.column);
  }
}
