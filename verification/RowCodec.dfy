/** The fixed-size records of a data page: null flags, then one field for every column. */
module RowCodec {
  import opened AllocationMaps
  import opened Bits
  import opened Inflate
  import opened LittleEndian

  type Raw = seq<bv8>

  /** The column types a record stores as a plain value. */
  datatype Kind = Int(width: nat, signed: bool) | Logical | Text(size: nat) | Binary(size: nat)
  {
    /** The bytes of a field; text and bytes take one more than the size declared. */
    function Store(): nat
    {
      match this
      case Int(w, _) => w
      case Logical => 2
      case Text(n) => n + 1
      case Binary(n) => n + 1
    }
  }

  datatype Value = Number(n: int) | Truth(b: bool) | Chars(s: Raw) | Blob(s: Raw)

  /** A row; None stands for NULL. */
  type Row = seq<Option<Value>>

  // -- integers -------------------------------------------------------------------------------------------

  function Pow256(w: nat): (r: nat)
    ensures r >= 1
  {
    if w == 0 then 1 else 256 * Pow256(w - 1)
  }

  /** The byte of these bits, low bit first. */
  function Packed(b: seq<bool>): bv8
    requires |b| == 8
  {
    (if b[0] then 1 else 0) | (if b[1] then 2 else 0) | (if b[2] then 4 else 0) | (if b[3] then 8 else 0)
    | (if b[4] then 16 else 0) | (if b[5] then 32 else 0) | (if b[6] then 64 else 0) | (if b[7] then 128 else 0)
  }

  function Unpacked(x: bv8): (b: seq<bool>)
    ensures |b| == 8
  {
    [x & 1 != 0, x & 2 != 0, x & 4 != 0, x & 8 != 0, x & 16 != 0, x & 32 != 0, x & 64 != 0, x & 128 != 0]
  }

  lemma UnpackedBack(b: seq<bool>)
    requires |b| == 8
    ensures Unpacked(Packed(b)) == b
  {
    var c := Unpacked(Packed(b));
    assert c[0] == b[0] && c[1] == b[1] && c[2] == b[2] && c[3] == b[3];
    assert c[4] == b[4] && c[5] == b[5] && c[6] == b[6] && c[7] == b[7];
  }

  /** The number of these bits, low bit first. */
  function Weight(b: seq<bool>): (n: nat)
    ensures n < Pow2(|b|)
  {
    if b == [] then 0 else (if b[0] then 1 else 0) + 2 * Weight(b[1..])
  }

  function BinaryDigits(n: nat, x: nat): (b: seq<bool>)
    ensures |b| == n
  {
    if n == 0 then [] else [x % 2 == 1] + BinaryDigits(n - 1, x / 2)
  }

  lemma {:induction false} BinaryDigitsBack(n: nat, x: nat)
    requires x < Pow2(n)
    ensures Weight(BinaryDigits(n, x)) == x
  {
    if n > 0 {
      BinaryDigitsBack(n - 1, x / 2);
      assert BinaryDigits(n, x)[1..] == BinaryDigits(n - 1, x / 2);
    }
  }

  /** A byte as a number, and back. */
  function ByteValue(x: bv8): (n: nat)
    ensures n < 256
  {
    Pow2Values();
    Weight(Unpacked(x))
  }

  function ToByte(n: nat): bv8 { Packed(BinaryDigits(8, n)) }

  lemma ByteBack(n: nat)
    requires n < 256
    ensures ByteValue(ToByte(n)) == n
  {
    hide Packed, Unpacked;
    Pow2Values();
    UnpackedBack(BinaryDigits(8, n));
    BinaryDigitsBack(8, n);
  }

  /** The low w bytes of a number, low byte first. */
  function LeBytes(w: nat, n: nat): (r: Raw)
    ensures |r| == w
  {
    if w == 0 then [] else [ToByte(n % 256)] + LeBytes(w - 1, n / 256)
  }

  function LeValue(s: Raw): (n: nat)
    ensures n < Pow256(|s|)
  {
    if s == [] then 0 else ByteValue(s[0]) + 256 * LeValue(s[1..])
  }

  lemma {:induction false} LeBack(w: nat, n: nat)
    requires n < Pow256(w)
    ensures LeValue(LeBytes(w, n)) == n
  {
    hide ToByte, ByteValue;
    if w > 0 {
      LeBack(w - 1, n / 256);
      ByteBack(n % 256);
      var b := LeBytes(w, n);
      assert b[1..] == LeBytes(w - 1, n / 256) && b[0] == ToByte(n % 256);
    }
  }

  /** The number in a field, sign extended where the column is signed. */
  function ReadNumber(s: Raw, signed: bool): int
  {
    var v := LeValue(s);
    if signed && 2 * v >= Pow256(|s|) then v - Pow256(|s|) else v
  }

  predicate InBounds(w: nat, signed: bool, n: int)
  {
    if signed then 0 <= 2 * n + Pow256(w) < 2 * Pow256(w) else 0 <= n < Pow256(w)
  }

  function Unsigned(w: nat, n: int): nat
    requires 0 <= n + Pow256(w)
  {
    if n < 0 then n + Pow256(w) else n
  }

  lemma NumberBack(w: nat, signed: bool, n: int)
    requires InBounds(w, signed, n)
    ensures ReadNumber(LeBytes(w, Unsigned(w, n)), signed) == n
  {
    LeBack(w, Unsigned(w, n));
  }

  lemma NumberFits(s: Raw, signed: bool)
    ensures InBounds(|s|, signed, ReadNumber(s, signed))
  {
  }

  // -- fields ---------------------------------------------------------------------------------------------

  function Decode(k: Kind, field: Raw): Value
    requires |field| == k.Store()
  {
    match k
    case Int(_, signed) => Number(ReadNumber(field, signed))
    case Logical => Truth(field[0] != 0 || field[1] != 0)
    case Text(_) => Chars(Preceding(field, 0))
    case Binary(_) => Blob(field)
  }

  function ZeroBytes(n: nat): (r: Raw)
    ensures |r| == n && forall i :: 0 <= i < n ==> r[i] == 0
  {
    seq(n, _ => 0)
  }

  /** The field of a value, or None where the column refuses it. */
  function Encode(k: Kind, v: Value): (r: Option<Raw>)
    ensures r.Some? ==> |r.value| == k.Store()
  {
    match k
    case Int(w, signed) =>
      if v.Number? && InBounds(w, signed, v.n) then Some(LeBytes(w, Unsigned(w, v.n))) else None
    case Logical => if v.Truth? then Some([if v.b then 1 else 0, 0]) else None
    case Text(n) => if v.Chars? && 0 !in v.s && |v.s| <= n then Some(v.s + ZeroBytes(n + 1 - |v.s|)) else None
    case Binary(n) => if v.Blob? && |v.s| <= n then Some(v.s + ZeroBytes(n + 1 - |v.s|)) else None
  }

  /** What is written is read back, but for bytes, which come back one zero or more longer. */
  lemma EncodeThenDecode(k: Kind, v: Value)
    requires Encode(k, v).Some?
    ensures Decode(k, Encode(k, v).value) == if k.Binary? then Blob(v.s + ZeroBytes(k.size + 1 - |v.s|)) else v
  {
    match k
    case Int(w, signed) => NumberBack(w, signed, v.n);
    case Logical =>
    case Text(n) => TextBack(v.s, n + 1 - |v.s|);
    case Binary(_) =>
  }

  lemma {:induction false} TextBack(s: Raw, n: nat)
    requires n > 0 && 0 !in s
    ensures Preceding(s + ZeroBytes(n), 0) == s
  {
    var t := s + ZeroBytes(n);
    if s == [] {
      assert t[0] == 0;
    } else {
      assert t[1..] == s[1..] + ZeroBytes(n);
      TextBack(s[1..], n);
    }
  }

  /** A value that was read is written again exactly where the column does not hold bytes, and its text, if it holds
      text, ends with a NUL. */
  lemma DecodeThenEncode(k: Kind, field: Raw)
    requires |field| == k.Store()
    ensures Encode(k, Decode(k, field)).Some? <==> !k.Binary? && (k.Text? ==> 0 in field)
  {
    match k
    case Int(w, signed) => NumberFits(field, signed);
    case Logical =>
    case Text(_) => PrecedingWhole(field, 0);
    case Binary(_) =>
  }

  // -- records --------------------------------------------------------------------------------------------

  function FlagBytes(n: nat): nat { (n + 7) / 8 }

  /** Where the field of column i starts, behind the null flags. */
  function Offset(ks: seq<Kind>, i: nat): nat
    requires i <= |ks|
  {
    if i == 0 then 0 else Offset(ks, i - 1) + ks[i - 1].Store()
  }

  function RecordSize(ks: seq<Kind>): nat { FlagBytes(|ks|) + Offset(ks, |ks|) }

  lemma {:induction false} OffsetsGrow(ks: seq<Kind>, i: nat, j: nat)
    requires i <= j <= |ks|
    ensures Offset(ks, i) <= Offset(ks, j)
  {
    if i < j { OffsetsGrow(ks, i, j - 1); }
  }

  function FieldStart(ks: seq<Kind>, i: nat): nat
    requires i <= |ks|
  {
    FlagBytes(|ks|) + Offset(ks, i)
  }

  lemma FieldInside(ks: seq<Kind>, i: nat)
    requires i < |ks|
    ensures FieldStart(ks, i) + ks[i].Store() == FieldStart(ks, i + 1) <= RecordSize(ks)
  {
    OffsetsGrow(ks, i + 1, |ks|);
  }

  function FieldOf(ks: seq<Kind>, rec: Raw, i: nat): (f: Raw)
    requires |rec| == RecordSize(ks) && i < |ks|
    ensures |f| == ks[i].Store()
  {
    FieldInside(ks, i);
    rec[FieldStart(ks, i)..FieldStart(ks, i + 1)]
  }

  /** Column i of a record; its null flag is bit i. */
  function ValueOf(ks: seq<Kind>, rec: Raw, i: nat): Option<Value>
    requires |rec| == RecordSize(ks) && i < |ks|
  {
    if PfsAllocated(rec, i) then None else Some(Decode(ks[i], FieldOf(ks, rec, i)))
  }

  function DecodeRow(ks: seq<Kind>, rec: Raw): (r: Row)
    requires |rec| == RecordSize(ks)
    ensures |r| == |ks| && forall i :: 0 <= i < |ks| ==> r[i] == ValueOf(ks, rec, i)
  {
    seq(|ks|, i requires 0 <= i < |ks| => ValueOf(ks, rec, i))
  }

  predicate Encodes(k: Kind, v: Option<Value>)
  {
    v.None? || Encode(k, v.value).Some?
  }

  /** Every value fits its column. */
  predicate RowFits(ks: seq<Kind>, row: Row)
  {
    |row| == |ks| && forall i :: 0 <= i < |ks| ==> Encodes(ks[i], row[i])
  }

  /** A field of the record: the value's bytes, or zeros for NULL. */
  function FieldBytes(k: Kind, v: Option<Value>): (f: Raw)
    requires Encodes(k, v)
    ensures |f| == k.Store()
  {
    if v.None? then ZeroBytes(k.Store()) else Encode(k, v.value).value
  }

  /** The record of a row: its fields, the flags of its NULLs, and the spare flags set. */
  ghost predicate Records(ks: seq<Kind>, row: Row, rec: Raw)
  {
    && RowFits(ks, row) && |rec| == RecordSize(ks)
    && (forall i :: 0 <= i < |ks| ==> FieldOf(ks, rec, i) == FieldBytes(ks[i], row[i]))
    && forall i :: 0 <= i < 8 * FlagBytes(|ks|) ==> (PfsAllocated(rec, i) <==> i >= |ks| || row[i].None?)
  }

  lemma FlagInside(i: nat, n: nat, size: nat)
    requires i < 8 * FlagBytes(n) && FlagBytes(n) <= size
    ensures i / 8 < size
  {
  }

  /** A record in the making: the first n columns are in place. */
  ghost predicate Filled(ks: seq<Kind>, row: Row, rec: Raw, n: nat)
  {
    && |row| == |ks| && n <= |ks| && |rec| == RecordSize(ks)
    && (forall i :: 0 <= i < n ==> Encodes(ks[i], row[i]) && FieldOf(ks, rec, i) == FieldBytes(ks[i], row[i]))
    && forall i :: 0 <= i < 8 * FlagBytes(|ks|) ==> (PfsAllocated(rec, i) <==> i >= |ks| || (i < n && row[i].None?))
  }

  /** The flags past the last column. */
  method SpareFlags(ks: seq<Kind>) returns (rec: Raw)
    ensures |rec| == RecordSize(ks)
    ensures forall i :: 0 <= i < 8 * FlagBytes(|ks|) ==> (PfsAllocated(rec, i) <==> i >= |ks|)
  {
    hide PfsAllocated, PfsSet;
    rec := ZeroBytes(RecordSize(ks));
    forall i | 0 <= i < 8 * FlagBytes(|ks|) ensures !PfsAllocated(rec, i) { ZeroFlag(RecordSize(ks), i); }
    var i := |ks|;
    while i < 8 * FlagBytes(|ks|)
      invariant |ks| <= i && |rec| == RecordSize(ks)
      invariant forall j :: 0 <= j < 8 * FlagBytes(|ks|) ==> (PfsAllocated(rec, j) <==> |ks| <= j < i)
    {
      FlagInside(i, |ks|, |rec|);
      rec := PfsSet(rec, i);
      i := i + 1;
    }
  }

  lemma ZeroFlag(n: nat, i: nat)
    ensures !PfsAllocated(ZeroBytes(n), i)
  {
    hide BitMask;
    if i / 8 < n { NoBits(BitMask(i % 8)); }
  }

  lemma NoBits(m: bv8)
    ensures 0 & m == 0
  {
  }

  /** Column i's bytes put in place, the other fields and the flags stay. */
  lemma FieldPut(ks: seq<Kind>, rec: Raw, i: nat, f: Raw)
    requires |rec| == RecordSize(ks) && i < |ks| && |f| == ks[i].Store()
    ensures FieldStart(ks, i) + |f| <= |rec|
    ensures var r := Patched(rec, FieldStart(ks, i), f);
      && FieldOf(ks, r, i) == f && (forall j :: 0 <= j < |ks| && j != i ==> FieldOf(ks, r, j) == FieldOf(ks, rec, j))
      && forall b :: 0 <= b < 8 * FlagBytes(|ks|) ==> (PfsAllocated(r, b) <==> PfsAllocated(rec, b))
  {
    hide PfsAllocated, Patched, Offset;
    FieldInside(ks, i);
    var r := Patched(rec, FieldStart(ks, i), f);
    forall j | 0 <= j < |ks| && j != i
      ensures FieldOf(ks, r, j) == FieldOf(ks, rec, j)
    {
      FieldsApart(ks, i, j);
      FieldInside(ks, j);
    }
    forall b | 0 <= b < 8 * FlagBytes(|ks|)
      ensures PfsAllocated(r, b) <==> PfsAllocated(rec, b)
    {
      SameFlag(rec, r, b);
    }
  }

  lemma FieldsApart(ks: seq<Kind>, i: nat, j: nat)
    requires i < |ks| && j < |ks| && i != j
    ensures FieldStart(ks, i + 1) <= FieldStart(ks, j) || FieldStart(ks, j + 1) <= FieldStart(ks, i)
  {
    if i < j { OffsetsGrow(ks, i + 1, j); } else { OffsetsGrow(ks, j + 1, i); }
  }

  lemma SameFlag(a: Raw, b: Raw, i: nat)
    requires |a| == |b| && (i / 8 < |a| ==> a[i / 8] == b[i / 8])
    ensures PfsAllocated(a, i) <==> PfsAllocated(b, i)
  {
    hide BitMask;
  }

  /** A null flag put in place, the fields stay. */
  lemma FlagPut(ks: seq<Kind>, rec: Raw, i: nat)
    requires |rec| == RecordSize(ks) && i < |ks|
    ensures i / 8 < |rec|
    ensures forall j :: 0 <= j < |ks| ==> FieldOf(ks, PfsSet(rec, i), j) == FieldOf(ks, rec, j)
    ensures forall j :: 0 <= j < |ks| ==> FieldOf(ks, PfsClear(rec, i), j) == FieldOf(ks, rec, j)
  {
    hide PfsAllocated, BitMask, Offset;
    forall j | 0 <= j < |ks|
      ensures FieldOf(ks, PfsSet(rec, i), j) == FieldOf(ks, rec, j)
      ensures FieldOf(ks, PfsClear(rec, i), j) == FieldOf(ks, rec, j)
    {
      FieldInside(ks, j);
    }
  }

  /** One value into its column. */
  method EncodeInto(ks: seq<Kind>, rec: Raw, i: nat, v: Option<Value>) returns (ok: bool, r: Raw)
    requires |rec| == RecordSize(ks) && i < |ks|
    ensures ok <==> Encodes(ks[i], v)
    ensures ok ==> |r| == |rec| && FieldOf(ks, r, i) == FieldBytes(ks[i], v)
    ensures ok ==> forall j :: 0 <= j < |ks| && j != i ==> FieldOf(ks, r, j) == FieldOf(ks, rec, j)
    ensures ok ==> forall b :: 0 <= b < 8 * FlagBytes(|ks|) ==>
      (PfsAllocated(r, b) <==> if b == i then v.None? else PfsAllocated(rec, b))
  {
    hide PfsAllocated, PfsSet, PfsClear, Patched, FieldOf, RecordSize;
    if !Encodes(ks[i], v) { return false, rec; }
    var f := FieldBytes(ks[i], v);
    FieldPut(ks, rec, i, f);
    r := Patched(rec, FieldStart(ks, i), f);
    FlagPut(ks, r, i);
    r := if v.None? then PfsSet(r, i) else PfsClear(r, i);
    ok := true;
  }

  /** The record of a row, built column by column. */
  method EncodeRecord(ks: seq<Kind>, row: Row) returns (ok: bool, rec: Raw)
    ensures ok <==> RowFits(ks, row)
    ensures ok ==> Records(ks, row, rec)
  {
    hide PfsAllocated, FieldOf, RecordSize, Encodes, FieldBytes;
    if |row| != |ks| { return false, []; }
    rec := SpareFlags(ks);
    var i := 0;
    while i < |ks|
      invariant 0 <= i <= |ks| && Filled(ks, row, rec, i)
    {
      var fits, r := EncodeInto(ks, rec, i, row[i]);
      if !fits { return false, rec; }
      rec := r;
      i := i + 1;
    }
    ok := true;
  }

  /** What comes back of a value: bytes are padded to the width of their field. */
  function Returned(k: Kind, v: Option<Value>): Option<Value>
    requires Encodes(k, v)
  {
    if v.Some? && k.Binary? then Some(Blob(v.value.s + ZeroBytes(k.size + 1 - |v.value.s|))) else v
  }

  /** The row read from a record is the one it was made of. */
  lemma RecordBack(ks: seq<Kind>, row: Row, rec: Raw)
    requires Records(ks, row, rec)
    ensures forall i :: 0 <= i < |ks| ==> DecodeRow(ks, rec)[i] == Returned(ks[i], row[i])
  {
    hide PfsAllocated, FieldOf, RecordSize, Encode, Decode;
    forall i | 0 <= i < |ks|
      ensures ValueOf(ks, rec, i) == Returned(ks[i], row[i])
    {
      assert FieldOf(ks, rec, i) == FieldBytes(ks[i], row[i]);
      if row[i].Some? { EncodeThenDecode(ks[i], row[i].value); }
    }
  }
}
