/** Column definitions: the reader takes all of them, the writer only the types it knows. */
module SchemaColumns {
  import opened Bits
  import opened Inflate
  import opened TableCatalog
  import opened Codecs
  import opened SchemaFields

  const VARCHAR: byte := 3
  const INT32: byte := 7
  const BLOB: byte := 18
  const WIDE_CLOB: byte := 20
  const STRING: byte := 2
  const INTEGER: byte := 7
  const AUTO_INC: byte := 12

  const TWO32: nat := 0x1_0000_0000
  const MAX_INT64: nat := 0x7FFF_FFFF_FFFF_FFFF

  /** The AUTOINC options; the four numbers are kept as their 64 bits. */
  datatype AutoInc = AutoInc(increment: nat, initial: nat, min: nat, max: nat, cycled: bool)

  const ENGINE_DEFAULT: AutoInc := AutoInc(1, 0, 0, MAX_INT64, false)

  /** Compression algorithm, mode and block size. */
  type Blob = (byte, (byte, nat))

  /** A column; of its DEFAULT only that there is one. The options are None where no definition was read. */
  datatype Column = Column(name: Name, id: nat, base: byte, field: byte, size: nat, blob: Option<Blob>,
                           autoInc: Option<AutoInc>, hasDefault: bool)

  predicate IsBlob(base: byte)
  {
    BLOB <= base <= WIDE_CLOB
  }

  predicate KnownType(base: byte, field: byte)
  {
    (base == INT32 && (field == INTEGER || field == AUTO_INC)) || (base == VARCHAR && field == STRING)
  }

  predicate Writable(c: Column)
  {
    KnownType(c.base, c.field) && !c.hasDefault && (c.autoInc.None? || c.autoInc.value == ENGINE_DEFAULT)
  }

  function NormColumn(c: Column): Column
  {
    c.(name := UpToNul(c.name), blob := None, autoInc := Some(ENGINE_DEFAULT))
  }

  // -- 64-bit numbers -------------------------------------------------------------------------------------

  function JoinWords(p: (nat, nat)): Read<nat> { Got(p.0 + TWO32 * p.1, 8) }

  function Words(n: nat): (nat, nat) { (n % TWO32, n / TWO32) }

  function U64C(): Codec<nat>
  {
    As(Pair(U32C(), U32C()), JoinWords, Words, Always<nat>, Itself<nat>)
  }

  lemma U64Readable()
    ensures Readable(U64C(), 8)
  {
    hide Lawful, AtLeast, U32C, Pair;
    U32Lawful();
    PairReadable(U32C(), 4, U32C(), 4);
    U64Match();
    AsReadable(Pair(U32C(), U32C()), 8, JoinWords, Words, Always<nat>, Itself<nat>);
  }

  lemma U64Match()
    ensures Matches(Pair(U32C(), U32C()), JoinWords, Words, Always<nat>, Itself<nat>)
  {
    forall y: nat
      ensures JoinWords(Pair(U32C(), U32C()).norm(Words(y))) == Got(y, 8)
    {
      assert y == y % TWO32 + TWO32 * (y / TWO32);
    }
  }

  // -- the options and the default ------------------------------------------------------------------------

  type AutoIncFields = (nat, (nat, (nat, (nat, byte))))

  function AutoIncOf(p: AutoIncFields): Read<Option<AutoInc>>
  {
    Got(Some(AutoInc(p.0, p.1.0, p.1.1.0, p.1.1.1.0, p.1.1.1.1 != 0)), 33)
  }

  /** Whatever the column carries, the defaults are written. */
  function AutoIncParts(o: Option<AutoInc>): AutoIncFields { (1, (0, (0, (MAX_INT64, 0)))) }

  function ToDefault(o: Option<AutoInc>): Option<AutoInc> { Some(ENGINE_DEFAULT) }

  function AutoIncFieldsC(): Codec<AutoIncFields>
  {
    Pair(U64C(), Pair(U64C(), Pair(U64C(), Pair(U64C(), ByteC()))))
  }

  function AutoIncC(): Codec<Option<AutoInc>>
  {
    As(AutoIncFieldsC(), AutoIncOf, AutoIncParts, Always<Option<AutoInc>>, ToDefault)
  }

  lemma AutoIncReadable()
    ensures Readable(AutoIncC(), 33)
  {
    hide Lawful, AtLeast, U64C, ByteC, Pair;
    U64Readable();
    ByteLawful();
    PairReadable(U64C(), 8, ByteC(), 1);
    PairReadable(U64C(), 8, Pair(U64C(), ByteC()), 9);
    PairReadable(U64C(), 8, Pair(U64C(), Pair(U64C(), ByteC())), 17);
    PairReadable(U64C(), 8, Pair(U64C(), Pair(U64C(), Pair(U64C(), ByteC()))), 25);
    AutoIncMatch();
    AsReadable(AutoIncFieldsC(), 33, AutoIncOf, AutoIncParts, Always<Option<AutoInc>>, ToDefault);
  }

  lemma AutoIncMatch()
    ensures Matches(AutoIncFieldsC(), AutoIncOf, AutoIncParts, Always<Option<AutoInc>>, ToDefault)
  {
    forall y: Option<AutoInc>
      ensures AutoIncOf(AutoIncFieldsC().norm(AutoIncParts(y))) == Got(Some(ENGINE_DEFAULT), 33)
    {
    }
  }

  function HasOption(o: Option<Bytes>): Read<bool> { Got(o.Some?, 0) }

  function NoOption(b: bool): Option<Bytes> { None }

  function IsFalse(b: bool): bool { !b }

  /** That there is a default is read; that there is none is all that can be written. */
  function DefaultC(): Codec<bool>
  {
    As(OptionC(), HasOption, NoOption, IsFalse, Itself<bool>)
  }

  lemma DefaultReadable()
    ensures Readable(DefaultC(), 1)
  {
    hide Lawful, AtLeast, OptionC;
    OptionLawful();
    assert Matches(OptionC(), HasOption, NoOption, IsFalse, Itself<bool>) by { NoneBack(); }
    AsReadable(OptionC(), 1, HasOption, NoOption, IsFalse, Itself<bool>);
  }

  lemma NoneBack()
    ensures OptionC().norm(None) == None
  {
  }

  // -- BLOB settings --------------------------------------------------------------------------------------

  function SomeBlob(b: Blob): Read<Option<Blob>> { Got(Some(b), 0) }

  function BlobOf(o: Option<Blob>): Blob { if o.Some? then o.value else (0, (0, 0)) }

  function HasBlob(o: Option<Blob>): bool { o.Some? }

  function NoBlob(u: ()): Read<Option<Blob>> { Got(None, 0) }

  function Nothing(o: Option<Blob>): () { () }

  function WithoutBlob(o: Option<Blob>): Option<Blob> { None }

  function SettingsC(): Codec<Blob>
  {
    Pair(ByteC(), Pair(ByteC(), U32C()))
  }

  /** A definition carries settings when its base type is one of the three BLOB types. */
  function BlobC(base: byte): Codec<Option<Blob>>
  {
    if IsBlob(base) then As(SettingsC(), SomeBlob, BlobOf, HasBlob, Itself<Option<Blob>>)
    else As(UnitC(), NoBlob, Nothing, Always<Option<Blob>>, WithoutBlob)
  }

  lemma BlobReadable(base: byte)
    ensures Readable(BlobC(base), 0)
  {
    hide Lawful, AtLeast, Matches, Pair, ByteC, U32C, UnitC;
    var norm := Itself<Option<Blob>>;
    ByteLawful();
    U32Lawful();
    UnitLawful();
    AtLeastNothing(UnitC());
    PairReadable(ByteC(), 1, U32C(), 4);
    PairReadable(ByteC(), 1, Pair(ByteC(), U32C()), 5);
    AtLeastNothing(SettingsC());
    BlobMatch();
    if IsBlob(base) {
      AsReadable(SettingsC(), 0, SomeBlob, BlobOf, HasBlob, norm);
    } else {
      AsReadable(UnitC(), 0, NoBlob, Nothing, Always<Option<Blob>>, WithoutBlob);
    }
  }

  lemma BlobMatch()
    ensures Matches(SettingsC(), SomeBlob, BlobOf, HasBlob, Itself<Option<Blob>>)
    ensures Matches(UnitC(), NoBlob, Nothing, Always<Option<Blob>>, WithoutBlob)
  {
    forall y: Option<Blob> | HasBlob(y)
      ensures SomeBlob(SettingsC().norm(BlobOf(y))) == Got(Itself(y), 0)
    {
    }
    forall y: Option<Blob> ensures NoBlob(UnitC().norm(Nothing(y))) == Got(WithoutBlob(y), 0) {}
  }

  // -- columns --------------------------------------------------------------------------------------------

  /** What follows the base type: field type, size, BLOB settings, AUTOINC options, the tag and the default. */
  type Rest = (byte, (nat, (Option<Blob>, (Option<AutoInc>, (byte, bool)))))

  function RestC(base: byte): Codec<Rest>
  {
    Pair(ByteC(), Pair(U32C(), Pair(BlobC(base), Pair(AutoIncC(), Pair(ByteC(), DefaultC())))))
  }

  lemma RestReadable(base: byte)
    ensures Readable(RestC(base), 40)
  {
    hide Lawful, AtLeast, Pair, ByteC, U32C, BlobC, AutoIncC, DefaultC;
    ByteLawful();
    U32Lawful();
    BlobReadable(base);
    AutoIncReadable();
    DefaultReadable();
    PairReadable(ByteC(), 1, DefaultC(), 1);
    PairReadable(AutoIncC(), 33, Pair(ByteC(), DefaultC()), 2);
    PairReadable(BlobC(base), 0, Pair(AutoIncC(), Pair(ByteC(), DefaultC())), 35);
    var tail := Pair(BlobC(base), Pair(AutoIncC(), Pair(ByteC(), DefaultC())));
    PairReadable(U32C(), 4, tail, 35);
    PairReadable(ByteC(), 1, Pair(U32C(), tail), 39);
  }

  type ColumnFields = (Name, (nat, (byte, Rest)))

  function ColumnOf(p: ColumnFields): Read<Column>
  {
    var r := p.1.1.1;
    Got(Column(p.0, p.1.0, p.1.1.0, r.0, r.1.0, r.1.1.0, r.1.1.1.0, r.1.1.1.1.1), 0)
  }

  /** The tag written before the default is the base type. */
  function ColumnParts(c: Column): ColumnFields
  {
    (c.name, (c.id, (c.base, (c.field, (c.size, (c.blob, (c.autoInc, (c.base, c.hasDefault))))))))
  }

  function ColumnFieldsC(): Codec<ColumnFields>
  {
    Pair(PascalC(1), Pair(U32C(), Bind(ByteC(), RestC)))
  }

  function ColumnC(): Codec<Column>
  {
    As(ColumnFieldsC(), ColumnOf, ColumnParts, Writable, NormColumn)
  }

  lemma BaseSteady()
    ensures Steady(ByteC(), RestC)
  {
    hide RestC;
  }

  lemma ColumnFieldsReadable()
    ensures Readable(ColumnFieldsC(), 46)
  {
    hide Lawful, AtLeast, Steady, Pair, Bind, PascalC, U32C, ByteC, RestC;
    PascalLawful(1);
    U32Lawful();
    ByteLawful();
    forall base: byte ensures Readable(RestC(base), 40) { RestReadable(base); }
    BaseSteady();
    BindReadable(ByteC(), 1, RestC, 40);
    PairReadable(U32C(), 4, Bind(ByteC(), RestC), 41);
    PairReadable(PascalC(1), 1, Pair(U32C(), Bind(ByteC(), RestC)), 45);
  }

  lemma RestNorm(c: Column)
    requires Writable(c)
    ensures RestC(c.base).norm(ColumnParts(c).1.1.1)
         == (c.field, (c.size, (None, (Some(ENGINE_DEFAULT), (c.base, c.hasDefault)))))
  {
  }

  lemma ColumnMatch()
    ensures Matches(ColumnFieldsC(), ColumnOf, ColumnParts, Writable, NormColumn)
  {
    hide RestC, UpToNul;
    forall c: Column | Writable(c)
      ensures ColumnOf(ColumnFieldsC().norm(ColumnParts(c))) == Got(NormColumn(c), 0)
    {
      RestNorm(c);
    }
  }

  lemma ColumnReadable()
    ensures Readable(ColumnC(), 46)
  {
    hide Readable, Matches, ColumnFieldsC;
    ColumnFieldsReadable();
    ColumnMatch();
    AsReadable(ColumnFieldsC(), 46, ColumnOf, ColumnParts, Writable, NormColumn);
  }

  /** Every column that is written comes back. */
  lemma ColumnSound(c: Column)
    ensures ColumnC().sound(c)
  {
    hide Pair, Bind, RestC;
    AsParts(ColumnFieldsC(), ColumnOf, ColumnParts, Writable, NormColumn, c);
    var p := ColumnParts(c);
    RestSound(c.base, p.1.1.1);
    BindParts(ByteC(), RestC, p.1.1);
    PairParts(U32C(), Bind(ByteC(), RestC), p.1);
    PairParts(PascalC(1), Pair(U32C(), Bind(ByteC(), RestC)), p);
  }

  lemma RestSound(base: byte, r: Rest)
    ensures RestC(base).sound(r)
  {
    hide Pair, BlobC, AutoIncC, DefaultC;
    var end := Pair(ByteC(), DefaultC());
    OthersSound(base, r.1.1.0, r.1.1.1.0, r.1.1.1.1.1);
    PairParts(ByteC(), DefaultC(), r.1.1.1.1);
    PairParts(AutoIncC(), end, r.1.1.1);
    PairParts(BlobC(base), Pair(AutoIncC(), end), r.1.1);
    PairParts(U32C(), Pair(BlobC(base), Pair(AutoIncC(), end)), r.1);
    PairParts(ByteC(), Pair(U32C(), Pair(BlobC(base), Pair(AutoIncC(), end))), r);
  }

  lemma OthersSound(base: byte, blob: Option<Blob>, autoInc: Option<AutoInc>, hasDefault: bool)
    ensures BlobC(base).sound(blob) && AutoIncC().sound(autoInc) && DefaultC().sound(hasDefault)
  {
    hide OptionC;
    AsParts(OptionC(), HasOption, NoOption, IsFalse, Itself<bool>, hasDefault);
    OptionSound(NoOption(hasDefault));
  }

  /** The columns the writer takes. */
  predicate WritableColumn(c: Column)
  {
    Writable(c) && 1 <= |c.name| <= 255 && c.id < TWO32 && c.size < TWO32
  }

  lemma ColumnAccepted(c: Column)
    ensures ColumnC().accepts(c) <==> WritableColumn(c)
  {
    hide Pair, Bind, RestC;
    AsParts(ColumnFieldsC(), ColumnOf, ColumnParts, Writable, NormColumn, c);
    var p := ColumnParts(c);
    if Writable(c) { RestAccepted(c.base, p.1.1.1); }
    BindParts(ByteC(), RestC, p.1.1);
    PairParts(U32C(), Bind(ByteC(), RestC), p.1);
    PairParts(PascalC(1), Pair(U32C(), Bind(ByteC(), RestC)), p);
  }

  lemma RestAccepted(base: byte, r: Rest)
    requires !IsBlob(base)
    ensures RestC(base).accepts(r) <==> r.1.0 < TWO32 && !r.1.1.1.1.1
  {
    hide Pair, BlobC, AutoIncC, DefaultC;
    var end := Pair(ByteC(), DefaultC());
    OthersAccepted(base, r.1.1.0, r.1.1.1.0, r.1.1.1.1.1);
    PairParts(ByteC(), DefaultC(), r.1.1.1.1);
    PairParts(AutoIncC(), end, r.1.1.1);
    PairParts(BlobC(base), Pair(AutoIncC(), end), r.1.1);
    PairParts(U32C(), Pair(BlobC(base), Pair(AutoIncC(), end)), r.1);
    PairParts(ByteC(), Pair(U32C(), Pair(BlobC(base), Pair(AutoIncC(), end))), r);
  }

  lemma OthersAccepted(base: byte, blob: Option<Blob>, autoInc: Option<AutoInc>, hasDefault: bool)
    requires !IsBlob(base)
    ensures BlobC(base).accepts(blob) && AutoIncC().accepts(autoInc)
    ensures DefaultC().accepts(hasDefault) <==> !hasDefault
  {
    hide OptionC, Pair;
    AsParts(UnitC(), NoBlob, Nothing, Always<Option<Blob>>, WithoutBlob, blob);
    AsParts(OptionC(), HasOption, NoOption, IsFalse, Itself<bool>, hasDefault);
    OptionAccepted(None);
    AsParts(AutoIncFieldsC(), AutoIncOf, AutoIncParts, Always<Option<AutoInc>>, ToDefault, autoInc);
    U64Accepted(0);
    U64Accepted(1);
    U64Accepted(MAX_INT64);
    var n := U64C();
    PairParts(n, ByteC(), (MAX_INT64, 0));
    PairParts(n, Pair(n, ByteC()), (0, (MAX_INT64, 0)));
    PairParts(n, Pair(n, Pair(n, ByteC())), (0, (0, (MAX_INT64, 0))));
    PairParts(n, Pair(n, Pair(n, Pair(n, ByteC()))), (1, (0, (0, (MAX_INT64, 0)))));
  }

  lemma U64Accepted(n: nat)
    ensures U64C().accepts(n) <==> n / TWO32 < TWO32
  {
    hide Pair;
    AsParts(Pair(U32C(), U32C()), JoinWords, Words, Always<nat>, Itself<nat>, n);
    PairParts(U32C(), U32C(), Words(n));
  }
}
