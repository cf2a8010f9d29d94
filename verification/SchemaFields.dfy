/** The fields that the records of a schema stream are made of. */
module SchemaFields {
  import opened Bits
  import opened Inflate
  import opened LittleEndian
  import opened TableCatalog
  import opened Codecs

  type Name = Bytes

  // -- bytes and numbers ----------------------------------------------------------------------------------

  function UnitC(): Codec<()>
  {
    Codec((s: Bytes) => Got((), 0), (x: ()) => [], (x: ()) => true, (x: ()) => true, (x: ()) => x)
  }

  lemma UnitLawful()
    ensures Lawful(UnitC()) && Restores(UnitC())
  {
    forall x: (), t: Bytes ensures BackAt(UnitC(), x, t) { assert [] + t == t && x == (); }
    forall s: Bytes, t: Bytes ensures LocalAt(UnitC(), s, t) {}
    forall s: Bytes ensures RestoredAt(UnitC(), s) {}
    MakeLawful(UnitC());
    MakeRestores(UnitC());
  }

  function ReadByte(s: Bytes): Read<byte>
  {
    if s == [] then Bad else Got(s[0], 1)
  }

  function ByteC(): Codec<byte>
  {
    Codec((s: Bytes) => ReadByte(s), (x: byte) => [x], (x: byte) => true, (x: byte) => true, (x: byte) => x)
  }

  lemma ByteLawful()
    ensures Lawful(ByteC()) && AtLeast(ByteC(), 1) && Restores(ByteC())
  {
    forall s: Bytes ensures RestoredAt(ByteC(), s) {
      if s != [] { assert s[..1] == [s[0]]; }
    }
    MakeRestores(ByteC());
  }

  function ReadU32(s: Bytes): Read<nat>
  {
    if |s| < 4 then Bad else Got(ReadLe32(s, 0), 4)
  }

  /** A 32-bit number, low byte first. */
  function U32C(): Codec<nat>
  {
    Codec((s: Bytes) => ReadU32(s), (x: nat) => Le32(x % 0x1_0000_0000), (x: nat) => x < 0x1_0000_0000,
          (x: nat) => true, (x: nat) => x)
  }

  lemma U32Lawful()
    ensures Lawful(U32C()) && AtLeast(U32C(), 4) && Restores(U32C())
  {
    hide Le32, ReadLe32;
    forall x: nat, t: Bytes ensures BackAt(U32C(), x, t) {
      if x < 0x1_0000_0000 { CountRead(x, t); }
    }
    forall s: Bytes, t: Bytes ensures LocalAt(U32C(), s, t) {
      if |s| >= 4 {
        assert (s[..4] + t)[0..4] == s[0..4];
        ReadSame(s[..4] + t, 0, s, 0);
      }
    }
    forall s: Bytes ensures RestoredAt(U32C(), s) {
      if |s| >= 4 { Le32Writes(s, 0); }
    }
    MakeLawful(U32C());
    MakeRestores(U32C());
  }

  /** Fixed bytes, refused when they are others. */
  function ConstC(b: Bytes): Codec<()>
  {
    Codec((s: Bytes) => if b <= s then Got((), |b|) else Bad, (x: ()) => b, (x: ()) => true, (x: ()) => true,
          (x: ()) => x)
  }

  lemma ConstLawful(b: Bytes)
    ensures Lawful(ConstC(b)) && AtLeast(ConstC(b), |b|) && Restores(ConstC(b))
  {
    forall x: (), t: Bytes ensures BackAt(ConstC(b), x, t) { assert b <= b + t && x == (); }
    forall s: Bytes, t: Bytes ensures LocalAt(ConstC(b), s, t) {
      if b <= s { assert s[..|b|] == b && b <= b + t; }
    }
    forall s: Bytes ensures RestoredAt(ConstC(b), s) {
      if b <= s { assert s[..|b|] == b; }
    }
    MakeLawful(ConstC(b));
    MakeRestores(ConstC(b));
  }

  function FlagOf(b: byte): Read<bool>
  {
    if b == 0 then Got(false, 1) else if b == 255 then Got(true, 1) else Bad
  }

  function FlagByte(x: bool): byte
  {
    if x then 255 else 0
  }

  function Always<T>(x: T): bool { true }

  function Itself<T>(x: T): T { x }

  /** A boolean: 0x00 or 0xFF, any other byte is refused. */
  function FlagC(): Codec<bool>
  {
    As(ByteC(), FlagOf, FlagByte, Always<bool>, Itself<bool>)
  }

  lemma FlagLawful()
    ensures Lawful(FlagC()) && AtLeast(FlagC(), 1) && Restores(FlagC())
  {
    hide Lawful, AtLeast, Restores;
    ByteLawful();
    assert Matches(ByteC(), FlagOf, FlagByte, Always<bool>, Itself<bool>) by {
      forall y: bool ensures FlagOf(ByteC().norm(FlagByte(y))) == Got(Itself(y), 1) { if y {} }
    }
    AsLawful(ByteC(), FlagOf, FlagByte, Always<bool>, Itself<bool>);
    AsRestores(ByteC(), FlagOf, FlagByte, Always<bool>, Itself<bool>);
    AsAtLeast(ByteC(), FlagOf, FlagByte, Always<bool>, Itself<bool>, 1);
  }

  lemma FlagAccepted(x: bool)
    ensures FlagC().accepts(x)
  {
    AsParts(ByteC(), FlagOf, FlagByte, Always<bool>, Itself<bool>, x);
  }

  // -- names ----------------------------------------------------------------------------------------------

  /** A length byte and so many bytes, of which the name ends at the first NUL. */
  function ReadPascal(s: Bytes): Read<Name>
  {
    if s == [] || 1 + s[0] as int > |s| then Bad else Got(UpToNul(s[1..1 + s[0] as int]), 1 + s[0] as int)
  }

  function WritePascal(x: Name): Bytes
  {
    [|x| % 256] + x
  }

  /** A name of at least `min` bytes. */
  function PascalC(min: nat): Codec<Name>
  {
    Codec((s: Bytes) => ReadPascal(s), (x: Name) => WritePascal(x), (x: Name) => min <= |x| <= 255, (x: Name) => true,
          (x: Name) => UpToNul(x))
  }

  lemma PascalBack(x: Name, t: Bytes)
    requires |x| <= 255
    ensures ReadPascal(WritePascal(x) + t) == Got(UpToNul(x), 1 + |x|)
  {
    hide ReadPascal, UpToNul;
    var b: byte := |x|;
    assert |x| % 256 == b;
    assert [|x| % 256] == [b];
    assert WritePascal(x) == [b] + x;
    ConcatAssoc([b], x, t);
    PascalTaken(b, x, t);
  }

  lemma PascalTaken(b: byte, x: Name, t: Bytes)
    requires b == |x|
    ensures ReadPascal([b] + (x + t)) == Got(UpToNul(x), 1 + |x|)
  {
    hide UpToNul;
    var s := [b] + (x + t);
    assert s[1..1 + |x|] == x;
  }

  lemma PascalLocal(s: Bytes, t: Bytes)
    requires ReadPascal(s).Got?
    ensures 1 <= ReadPascal(s).size <= |s| && ReadPascal(s[..ReadPascal(s).size] + t) == ReadPascal(s)
  {
    var n := 1 + s[0] as int;
    assert (s[..n] + t)[1..n] == s[1..n] && (s[..n] + t)[0] == s[0];
  }

  lemma PascalRestored(s: Bytes)
    requires ReadPascal(s).Got?
    ensures var x, n := ReadPascal(s).value, ReadPascal(s).size;
      |WritePascal(x)| == 1 + |x| <= n <= |s| && (1 + |x| == n ==> WritePascal(x) == s[..n])
  {
    var n := s[0];
    assert s[..1 + n] == [s[0]] + s[1..1 + n];
  }

  lemma PascalLawful(min: nat)
    ensures Lawful(PascalC(min)) && AtLeast(PascalC(min), 1) && Restores(PascalC(min))
  {
    hide UpToNul;
    forall x, t: Bytes ensures BackAt(PascalC(min), x, t) {
      if |x| <= 255 { PascalBack(x, t); }
    }
    forall s: Bytes, t: Bytes ensures LocalAt(PascalC(min), s, t) {
      if ReadPascal(s).Got? { PascalLocal(s, t); }
    }
    forall s: Bytes ensures RestoredAt(PascalC(min), s) {
      if ReadPascal(s).Got? { PascalRestored(s); }
    }
    MakeLawful(PascalC(min));
    MakeRestores(PascalC(min));
  }

  /** A size of one byte or of four, at the head of s. */
  function SizeAt(wide: bool, s: Bytes): nat
    requires |s| >= 4 || (!wide && s != [])
  {
    if wide then ReadLe32(s, 0) else s[0]
  }

  function Width(wide: bool): nat { if wide then 4 else 1 }

  function SizeBytes(wide: bool, n: nat): (r: Bytes)
    ensures |r| == Width(wide)
  {
    if wide then Le32(n % 0x1_0000_0000) else [n % 256]
  }

  lemma SizeRead(wide: bool, n: nat, t: Bytes)
    requires n <= 256
    ensures SizeAt(wide, SizeBytes(wide, n) + t) == (if wide then n else n % 256)
    ensures (SizeBytes(wide, n) + t)[Width(wide)..] == t
  {
    hide Le32, ReadLe32;
    if wide { CountRead(n, t); }
  }

  lemma SizeLocal(wide: bool, s: Bytes, n: nat, t: Bytes)
    requires Width(wide) <= n <= |s|
    ensures SizeAt(wide, s[..n] + t) == SizeAt(wide, s)
    ensures (s[..n] + t)[Width(wide)..] == s[Width(wide)..][..n - Width(wide)] + t
  {
    hide Le32, ReadLe32;
    if wide {
      assert (s[..n] + t)[0..4] == s[0..4];
      ReadSame(s[..n] + t, 0, s, 0);
    }
  }

  lemma SizeWrites(wide: bool, s: Bytes)
    requires Width(wide) <= |s|
    ensures SizeBytes(wide, SizeAt(wide, s)) == s[..Width(wide)]
  {
    hide Le32, ReadLe32;
    if wide { Le32Writes(s, 0); }
  }

  /** A name behind a size that counts its length byte too, and must agree with it. */
  function ReadSized(wide: bool, s: Bytes): Read<Name>
  {
    if |s| < Width(wide) then Bad
    else
      match ReadPascal(s[Width(wide)..])
      case Bad => Bad
      case Got(x, n) => if SizeAt(wide, s) == n then Got(x, Width(wide) + n) else Bad
  }

  /** The size of a name of 255 bytes wraps around in one byte, and is refused when it is read. */
  function SizedC(wide: bool, min: nat): Codec<Name>
  {
    Codec((s: Bytes) => ReadSized(wide, s), (x: Name) => SizeBytes(wide, |x| + 1) + WritePascal(x),
          (x: Name) => min <= |x| <= 255, (x: Name) => wide || |x| <= 254, (x: Name) => UpToNul(x))
  }

  lemma SizedBack(wide: bool, min: nat, x: Name, t: Bytes)
    ensures BackAt(SizedC(wide, min), x, t)
  {
    hide SizeAt, SizeBytes, WritePascal, ReadPascal, UpToNul;
    if |x| <= 255 {
      var w := WritePascal(x);
      WrittenSize(x);
      ConcatAssoc(SizeBytes(wide, |x| + 1), w, t);
      SizeRead(wide, |x| + 1, w + t);
      PascalBack(x, t);
    }
  }

  lemma WrittenSize(x: Name)
    ensures |WritePascal(x)| == 1 + |x|
  {
  }

  lemma SizedLocal(wide: bool, min: nat, s: Bytes, t: Bytes)
    ensures LocalAt(SizedC(wide, min), s, t)
  {
    hide SizeAt, SizeBytes, WritePascal, ReadPascal, UpToNul;
    if ReadSized(wide, s).Got? {
      var u := s[Width(wide)..];
      var n := ReadPascal(u).size;
      PascalLocal(u, t);
      SizeLocal(wide, s, Width(wide) + n, t);
    }
  }

  lemma SizedRestored(wide: bool, min: nat, s: Bytes)
    ensures RestoredAt(SizedC(wide, min), s)
  {
    hide SizeAt, SizeBytes, WritePascal, ReadPascal, UpToNul;
    if ReadSized(wide, s).Got? {
      var u := s[Width(wide)..];
      PascalRestored(u);
      SizeWrites(wide, s);
      var x, n := ReadPascal(u).value, ReadPascal(u).size;
      if |x| + 1 == n { BothRestored(s, Width(wide), n, SizeBytes(wide, n), WritePascal(x)); }
    }
  }

  lemma SizedLawful(wide: bool, min: nat)
    ensures Lawful(SizedC(wide, min)) && AtLeast(SizedC(wide, min), 2) && Restores(SizedC(wide, min))
  {
    hide BackAt, LocalAt, RestoredAt, SizeAt, UpToNul;
    forall x, t: Bytes ensures BackAt(SizedC(wide, min), x, t) { SizedBack(wide, min, x, t); }
    forall s: Bytes, t: Bytes ensures LocalAt(SizedC(wide, min), s, t) { SizedLocal(wide, min, s, t); }
    forall s: Bytes ensures RestoredAt(SizedC(wide, min), s) { SizedRestored(wide, min, s); }
    MakeLawful(SizedC(wide, min));
    MakeRestores(SizedC(wide, min));
  }

  // -- optional values ------------------------------------------------------------------------------------

  function PresentOf(b: byte): Read<bool>
  {
    if b == 255 then Got(false, 1) else if b == 0 then Got(true, 1) else Bad
  }

  function PresentByte(x: bool): byte
  {
    if x then 0 else 255
  }

  /** The marker of an optional value: 0x00 present, 0xFF absent. */
  function PresentC(): Codec<bool>
  {
    As(ByteC(), PresentOf, PresentByte, Always<bool>, Itself<bool>)
  }

  lemma PresentLawful()
    ensures Lawful(PresentC()) && AtLeast(PresentC(), 1) && Restores(PresentC())
  {
    hide Lawful, AtLeast, Restores;
    ByteLawful();
    assert Matches(ByteC(), PresentOf, PresentByte, Always<bool>, Itself<bool>) by {
      forall y: bool ensures PresentOf(ByteC().norm(PresentByte(y))) == Got(Itself(y), 1) { if y {} }
    }
    AsLawful(ByteC(), PresentOf, PresentByte, Always<bool>, Itself<bool>);
    AsRestores(ByteC(), PresentOf, PresentByte, Always<bool>, Itself<bool>);
    AsAtLeast(ByteC(), PresentOf, PresentByte, Always<bool>, Itself<bool>, 1);
  }

  const PAYLOAD_LIMITS: Limits := Limits(0, 0xFFFF_FFFF, 1, 0)

  function BytesC(): Codec<((), Bytes)>
  {
    Counted(PAYLOAD_LIMITS, UnitC(), ByteC())
  }

  lemma BytesLawful()
    ensures Lawful(BytesC()) && Restores(BytesC())
  {
    hide Lawful, AtLeast, Restores, Counted, UnitC, ByteC;
    UnitLawful();
    ByteLawful();
    CountedLawful(PAYLOAD_LIMITS, UnitC(), ByteC());
    CountedRestores(PAYLOAD_LIMITS, UnitC(), ByteC());
  }

  function SomeBytes(p: ((), Bytes)): Read<Option<Bytes>> { Got(Some(p.1), 0) }

  function BytesOf(o: Option<Bytes>): ((), Bytes) { ((), if o.Some? then o.value else []) }

  function Payload(o: Option<Bytes>): bool { o.Some? && |o.value| <= 65535 }

  function NoBytes(u: ()): Read<Option<Bytes>> { Got(None, 0) }

  function NothingOf(o: Option<Bytes>): () { () }

  function Missing(o: Option<Bytes>): bool { o.None? }

  function PayloadOf(present: bool): Codec<Option<Bytes>>
  {
    if present then As(BytesC(), SomeBytes, BytesOf, Payload, Itself<Option<Bytes>>)
    else As(UnitC(), NoBytes, NothingOf, Missing, Itself<Option<Bytes>>)
  }

  lemma PayloadLawful(present: bool)
    ensures Lawful(PayloadOf(present)) && Restores(PayloadOf(present))
  {
    hide Lawful, Restores, BytesC, UnitC;
    var norm := Itself<Option<Bytes>>;
    if present {
      BytesLawful();
      assert Matches(BytesC(), SomeBytes, BytesOf, Payload, norm) by { BytesMatch(); }
      AsLawful(BytesC(), SomeBytes, BytesOf, Payload, norm);
      forall x: ((), Bytes) ensures BytesOf(SomeBytes(x).value) == x { assert x.0 == (); }
      AsRestores(BytesC(), SomeBytes, BytesOf, Payload, norm);
    } else {
      UnitLawful();
      assert forall y: Option<Bytes> | Missing(y) :: norm(y) == None;
      forall x: () ensures NothingOf(NoBytes(x).value) == x { assert x == (); }
      AsLawful(UnitC(), NoBytes, NothingOf, Missing, norm);
      AsRestores(UnitC(), NoBytes, NothingOf, Missing, norm);
    }
  }

  lemma BytesMatch()
    ensures Matches(BytesC(), SomeBytes, BytesOf, Payload, Itself<Option<Bytes>>)
  {
    forall y: Option<Bytes> | Payload(y)
      ensures SomeBytes(BytesC().norm(BytesOf(y))) == Got(y, 0)
    {
      assert NormList(ByteC(), y.value) == y.value;
    }
  }

  function OptionOf(p: (bool, Option<Bytes>)): Read<Option<Bytes>> { if p.0 == p.1.Some? then Got(p.1, 0) else Bad }

  function MarkedOption(o: Option<Bytes>): (bool, Option<Bytes>) { (o.Some?, o) }

  /** An optional value behind its marker. */
  function OptionC(): Codec<Option<Bytes>>
  {
    As(Bind(PresentC(), PayloadOf), OptionOf, MarkedOption, Always<Option<Bytes>>, Itself<Option<Bytes>>)
  }

  lemma OptionLawful()
    ensures Lawful(OptionC()) && AtLeast(OptionC(), 1) && Restores(OptionC())
  {
    hide Lawful, Restores, AtLeast, PayloadOf, PresentC;
    var a := Bind(PresentC(), PayloadOf);
    PresentLawful();
    forall p: bool ensures Lawful(PayloadOf(p)) && Restores(PayloadOf(p)) && AtLeast(PayloadOf(p), 0) {
      PayloadLawful(p);
      AtLeastNothing(PayloadOf(p));
    }
    PresentSteady();
    BindLawful(PresentC(), PayloadOf);
    BindRestores(PresentC(), PayloadOf);
    BindAtLeast(PresentC(), PayloadOf, 1, 0);
    OptionMatch();
    AsLawful(a, OptionOf, MarkedOption, Always<Option<Bytes>>, Itself<Option<Bytes>>);
    AsRestores(a, OptionOf, MarkedOption, Always<Option<Bytes>>, Itself<Option<Bytes>>);
    AsAtLeast(a, OptionOf, MarkedOption, Always<Option<Bytes>>, Itself<Option<Bytes>>, 1);
  }

  lemma AtLeastNothing<T(!new)>(c: Codec<T>)
    ensures AtLeast(c, 0)
  {
  }

  lemma PresentSteady()
    ensures Steady(PresentC(), PayloadOf)
  {
    hide PayloadOf;
    forall x: bool ensures PresentC().norm(x) == x { if x {} }
  }

  lemma OptionMatch()
    ensures Matches(Bind(PresentC(), PayloadOf), OptionOf, MarkedOption, Always<Option<Bytes>>, Itself<Option<Bytes>>)
  {
    forall y: Option<Bytes>
      ensures OptionOf(Bind(PresentC(), PayloadOf).norm(MarkedOption(y))) == Got(y, 0)
    {
      if y.Some? {} else {}
    }
  }

  lemma OptionSound(o: Option<Bytes>)
    ensures OptionC().sound(o)
  {
    BindParts(PresentC(), PayloadOf, MarkedOption(o));
    if o.Some? {
      assert AllSound(ByteC(), o.value);
      assert BytesC().sound(BytesOf(o));
      assert PayloadOf(true).sound(o);
    } else {
      assert PayloadOf(false).sound(o);
    }
  }

  lemma OptionAccepted(o: Option<Bytes>)
    ensures OptionC().accepts(o) <==> o.Some? ==> |o.value| <= 65535
  {
    AsParts(Bind(PresentC(), PayloadOf), OptionOf, MarkedOption, Always<Option<Bytes>>, Itself<Option<Bytes>>, o);
    BindParts(PresentC(), PayloadOf, MarkedOption(o));
    if o.Some? {
      assert AllAccepted(ByteC(), o.value);
      AsParts(BytesC(), SomeBytes, BytesOf, Payload, Itself<Option<Bytes>>, o);
    } else {
      AsParts(UnitC(), NoBytes, NothingOf, Missing, Itself<Option<Bytes>>, o);
    }
    AsParts(ByteC(), PresentOf, PresentByte, Always<bool>, Itself<bool>, o.Some?);
  }
}
