/** The table catalog: an uncompressed internal file of fixed-size entries, edited in place. */
module TableCatalog {
  import opened Bits
  import opened Inflate
  import opened LittleEndian

  const NAME_FIELD: nat := 256
  const HEADER_SIZE: nat := 10
  const MAX_TABLES: nat := 4096

  /** One entry; the name is the bytes before the first NUL. */
  datatype TableInfo = TableInfo(name: seq<byte>, id: int, schemaPage: int, infoPage: int, systemPage: int)

  datatype EditResult = Edited | TooShort | Compressed | NotWhole | SpansPages | NoSuchTable | NoRoom | NameTooLong

  /** What precedes the first NUL. */
  function UpToNul(s: seq<byte>): (r: seq<byte>)
    ensures |r| <= |s| && r == s[..|r|] && (|r| == |s| || s[|r|] == 0)
    ensures forall i :: 0 <= i < |r| ==> r[i] != 0
  {
    Preceding(s, 0)
  }

  lemma UpToNulWhole(s: seq<byte>)
    ensures UpToNul(s) == s <==> forall i :: 0 <= i < |s| ==> s[i] != 0
  {
    PrecedingWhole(s, 0);
  }

  function ParseEntry(e: seq<byte>): TableInfo
    requires |e| == 272
  {
    TableInfo(UpToNul(e[1..1 + e[0]]), ReadInt32(e, 256), ReadInt32(e, 260), ReadInt32(e, 264), ReadInt32(e, 268))
  }

  function EntryAt(raw: seq<byte>, i: nat): seq<byte>
    requires (i + 1) * 272 <= |raw|
  {
    raw[i * 272..(i + 1) * 272]
  }

  /** The catalog's entries, from its bytes. */
  function ParseTableList(raw: seq<byte>): Option<seq<TableInfo>>
  {
    if |raw| % 272 != 0 || |raw| / 272 > MAX_TABLES then None
    else Some(seq(|raw| / 272, i requires 0 <= i < |raw| / 272 => ParseEntry(EntryAt(raw, i))))
  }

  /** The bytes of an uncompressed internal file that fits its page. */
  function FileBytes(p: seq<byte>): Option<seq<byte>>
  {
    if |p| < HEADER_SIZE then None
    else if p[0] as int < HEADER_SIZE || p[0] as int + ReadLe32(p, 1) > |p| || p[9] != 0 then None
    else Some(p[p[0]..p[0] as int + ReadLe32(p, 1)])
  }

  /** The tables listed on the catalog page. */
  function Tables(p: seq<byte>): Option<seq<TableInfo>>
  {
    match FileBytes(p)
    case None => None
    case Some(raw) => ParseTableList(raw)
  }

  /** The conditions under which the catalog can be edited in place. */
  function EditCheck(p: seq<byte>): EditResult
  {
    if |p| < HEADER_SIZE then TooShort
    else
      var h, stored := p[0] as int, ReadInt32(p, 1);
      if p[9] != 0 || stored != ReadInt32(p, 5) then Compressed
      else if h < HEADER_SIZE || stored < 0 || stored % 272 != 0 then NotWhole
      else if h + stored > |p| then SpansPages
      else Edited
  }

  /** Both length fields of the internal file header. */
  function WithLength(p: seq<byte>, n: nat): (r: seq<byte>)
    requires |p| >= HEADER_SIZE && n < 0x8000_0000
    ensures |r| == |p| && ReadInt32(r, 1) == n == ReadInt32(r, 5) && ReadLe32(r, 1) == n
    ensures forall k :: 0 <= k < |p| && !(1 <= k < 9) ==> r[k] == p[k]
  {
    var r := Patched(Patched(p, 1, Le32(n)), 5, Le32(n));
    Le32Reads(n);
    ReadSame(r, 1, Le32(n), 0);
    ReadSame(r, 5, Le32(n), 0);
    r
  }

  /** The page without entry `position`; the old last entry stays behind past the new end. */
  function Removed(p: seq<byte>, position: nat): (r: seq<byte>)
    requires EditCheck(p) == Edited && position < ReadInt32(p, 1) / 272
    ensures |r| == |p|
  {
    var h, stored := p[0] as int, ReadInt32(p, 1);
    WithLength(Patched(p, h + position * 272, p[h + (position + 1) * 272..h + stored]), stored - 272)
  }

  lemma RemovedBytes(p: seq<byte>, position: nat)
    requires EditCheck(p) == Edited && position < ReadInt32(p, 1) / 272
    ensures FileBytes(p).Some? && |FileBytes(p).value| == ReadInt32(p, 1)
    ensures var raw := FileBytes(p).value;
      FileBytes(Removed(p, position)) == Some(raw[..position * 272] + raw[(position + 1) * 272..])
  {
    var h, stored := p[0] as int, ReadInt32(p, 1);
    SignedRead(p, 1);
    var raw := p[h..h + stored];
    var r := Removed(p, position);
    assert r[h..h + stored - 272] == raw[..position * 272] + raw[(position + 1) * 272..];
  }

  lemma SliceLeft<T>(a: seq<T>, b: seq<T>, i: nat, j: nat)
    requires i <= j <= |a|
    ensures (a + b)[i..j] == a[i..j]
  {
  }

  lemma SliceRight<T>(a: seq<T>, b: seq<T>, i: nat, j: nat)
    requires |a| <= i <= j <= |a| + |b|
    ensures (a + b)[i..j] == b[i - |a|..j - |a|]
  {
  }

  lemma SliceFront<T>(s: seq<T>, n: nat, i: nat, j: nat)
    requires i <= j <= n <= |s|
    ensures s[..n][i..j] == s[i..j]
  {
  }

  lemma SliceBack<T>(s: seq<T>, n: nat, i: nat, j: nat)
    requires n <= |s| && i <= j <= |s| - n
    ensures s[n..][i..j] == s[n + i..n + j]
  {
  }

  function WithoutEntry(raw: seq<byte>, position: nat): seq<byte>
    requires (position + 1) * 272 <= |raw|
  {
    raw[..position * 272] + raw[(position + 1) * 272..]
  }

  lemma EntryShift(raw: seq<byte>, position: nat, i: nat)
    requires (position + 1) * 272 <= |raw| && (i + 2) * 272 <= |raw|
    ensures (i + 1) * 272 <= |WithoutEntry(raw, position)|
    ensures EntryAt(WithoutEntry(raw, position), i) == EntryAt(raw, if i < position then i else i + 1)
  {
    var a, b := raw[..position * 272], raw[(position + 1) * 272..];
    if i < position {
      SliceLeft(a, b, i * 272, (i + 1) * 272);
      SliceFront(raw, position * 272, i * 272, (i + 1) * 272);
    } else {
      SliceRight(a, b, i * 272, (i + 1) * 272);
      SliceBack(raw, (position + 1) * 272, i * 272 - position * 272, (i + 1) * 272 - position * 272);
    }
  }

  lemma ParseCount(raw: seq<byte>)
    requires |raw| % 272 == 0 && |raw| / 272 <= 4096
    ensures ParseTableList(raw).Some? && |ParseTableList(raw).value| == |raw| / 272
    ensures forall i :: 0 <= i < |raw| / 272 ==> ParseTableList(raw).value[i] == ParseEntry(EntryAt(raw, i))
  {
    hide ParseEntry, EntryAt;
  }

  lemma WithoutSize(raw: seq<byte>, position: nat, n: nat)
    requires |raw| == n * 272 && position < n
    ensures (position + 1) * 272 <= |raw| && |WithoutEntry(raw, position)| == (n - 1) * 272
    ensures |WithoutEntry(raw, position)| % 272 == 0 && |WithoutEntry(raw, position)| / 272 == n - 1
  {
  }

  lemma ParseWithout(raw: seq<byte>, position: nat)
    requires |raw| % 272 == 0 && |raw| / 272 <= 4096 && position < |raw| / 272
    ensures ParseTableList(raw).Some? && position < |ParseTableList(raw).value| && (position + 1) * 272 <= |raw|
    ensures ParseTableList(WithoutEntry(raw, position))
      == Some(ParseTableList(raw).value[..position] + ParseTableList(raw).value[position + 1..])
  {
    hide *;
    var n := |raw| / 272;
    WithoutSize(raw, position, n);
    var rest := WithoutEntry(raw, position);
    ParseCount(raw);
    ParseCount(rest);
    var before, after := ParseTableList(raw).value, ParseTableList(rest).value;
    forall i | 0 <= i < n - 1
      ensures after[i] == before[if i < position then i else i + 1]
    {
      EntryShift(raw, position, i);
    }
    assert after == before[..position] + before[position + 1..];
  }

  /** Dropping the entry from the page drops the table from the list, and only it. */
  lemma RemovedTables(p: seq<byte>, position: nat)
    requires EditCheck(p) == Edited && position < ReadInt32(p, 1) / 272 && Tables(p).Some?
    ensures position < |Tables(p).value|
    ensures Tables(Removed(p, position)) == Some(Tables(p).value[..position] + Tables(p).value[position + 1..])
  {
    RemovedBytes(p, position);
    EditParts(p);
    var raw := FileBytes(p).value;
    hide *;
    ListSize(p);
    ParseWithout(raw, position);
    TablesAre(p);
    TablesAre(Removed(p, position));
    WithoutIs(raw, position);
  }

  /** A catalog that can be edited, on a page of ordinary size, can be listed. */
  lemma Editable(p: seq<byte>)
    requires EditCheck(p) == Edited && |p| < 0x10_0000
    ensures Tables(p).Some?
  {
    SignedRead(p, 1);
  }

  lemma WithoutIs(raw: seq<byte>, position: nat)
    requires (position + 1) * 272 <= |raw|
    ensures WithoutEntry(raw, position) == raw[..position * 272] + raw[(position + 1) * 272..]
  {
  }

  lemma TablesAre(p: seq<byte>)
    requires FileBytes(p).Some?
    ensures Tables(p) == ParseTableList(FileBytes(p).value)
  {
    hide FileBytes, ParseTableList;
  }

  lemma ListSize(p: seq<byte>)
    requires Tables(p).Some?
    ensures FileBytes(p).Some? && |FileBytes(p).value| % 272 == 0 && |FileBytes(p).value| / 272 <= 4096
    ensures |Tables(p).value| == |FileBytes(p).value| / 272
  {
    hide FileBytes, ParseEntry, EntryAt;
  }

  /** Removes an entry from the catalog page, or says why it cannot. */
  method RemoveCatalogEntry(payload: array<byte>, position: int) returns (r: EditResult)
    modifies payload
    ensures r == (var c := EditCheck(old(payload[..]));
      if c != Edited then c
      else if ReadInt32(old(payload[..]), 1) == 0 then NotWhole
      else if position < 0 || position >= ReadInt32(old(payload[..]), 1) / 272 then NoSuchTable
      else Edited)
    ensures r == Edited ==> payload[..] == Removed(old(payload[..]), position)
    ensures r != Edited ==> payload[..] == old(payload[..])
  {
    hide *;
    var p := payload[..];
    r := EditCheck(p);
    if r != Edited { return; }
    EditParts(p);
    var h: nat, stored: int := p[0], ReadInt32(p, 1);
    if stored == 0 { return NotWhole; }
    if position < 0 || position >= stored / 272 { return NoSuchTable; }
    MoveBytes(payload, h + position * 272, h + position * 272 + 272, stored - 272 - position * 272);
    SetLength(payload, stored - 272);
    RemovedIs(p, position);
  }

  lemma RemovedIs(p: seq<byte>, position: nat)
    requires EditCheck(p) == Edited && position < ReadInt32(p, 1) / 272
    ensures var h, stored := p[0] as int, ReadInt32(p, 1);
      h + (position + 1) * 272 <= h + stored <= |p|
      && Removed(p, position)
        == WithLength(Patched(p, h + position * 272, p[h + (position + 1) * 272..h + stored]), stored - 272)
  {
    hide Patched, WithLength;
  }

  /** Sets both length fields. */
  method SetLength(payload: array<byte>, n: nat)
    requires payload.Length >= 10 && n < 0x8000_0000
    modifies payload
    ensures payload[..] == WithLength(old(payload[..]), n)
  {
    hide Patched, Le32;
    PutLe32(payload, 1, n);
    PutLe32(payload, 5, n);
  }

  lemma EditParts(p: seq<byte>)
    requires EditCheck(p) == Edited
    ensures |p| >= 10 && p[0] >= 10 && 0 <= ReadInt32(p, 1) < 0x8000_0000 && ReadInt32(p, 1) % 272 == 0
    ensures p[0] as int + ReadInt32(p, 1) <= |p|
  {
  }

  /** Writes a 32-bit number into the page. */
  method PutLe32(payload: array<byte>, at: nat, v: nat)
    requires at + 4 <= payload.Length && v < 0x1_0000_0000
    modifies payload
    ensures payload[..] == Patched(old(payload[..]), at, Le32(v))
  {
    var b := Le32(v);
    forall k | 0 <= k < 4 { payload[at + k] := b[k]; }
  }

  // -- appending ---------------------------------------------------------------------------------------

  /** A new entry written over whatever was there: the name field keeps its stale tail. */
  function EntryBytes(stale: seq<byte>, info: TableInfo): (e: seq<byte>)
    requires |stale| == 272 && |info.name| < NAME_FIELD
    ensures |e| == 272
  {
    [|info.name|] + info.name + stale[1 + |info.name|..256]
      + Le32(Unsigned32(info.id)) + Le32(Unsigned32(info.schemaPage))
      + Le32(Unsigned32(info.infoPage)) + Le32(Unsigned32(info.systemPage))
  }

  /** What the entry can hold comes back: the name up to a NUL, the numbers as 32 bits. */
  lemma EntryReads(stale: seq<byte>, info: TableInfo)
    requires |stale| == 272 && |info.name| < NAME_FIELD
    ensures ParseEntry(EntryBytes(stale, info)) == TableInfo(UpToNul(info.name),
      Signed32(Unsigned32(info.id)), Signed32(Unsigned32(info.schemaPage)),
      Signed32(Unsigned32(info.infoPage)), Signed32(Unsigned32(info.systemPage)))
  {
    hide Le32, UpToNul, ReadLe32;
    var e := EntryBytes(stale, info);
    assert e[1..1 + e[0]] == info.name;
    FieldReads(e, 256, info.id);
    FieldReads(e, 260, info.schemaPage);
    FieldReads(e, 264, info.infoPage);
    FieldReads(e, 268, info.systemPage);
  }

  lemma FieldReads(e: seq<byte>, at: nat, v: int)
    requires at + 4 <= |e| && e[at..at + 4] == Le32(Unsigned32(v))
    ensures ReadInt32(e, at) == Signed32(Unsigned32(v))
  {
    hide Le32, ReadLe32;
    Le32Reads(Unsigned32(v));
    assert Le32(Unsigned32(v))[0..4] == Le32(Unsigned32(v));
    ReadSame(e, at, Le32(Unsigned32(v)), 0);
  }

  ghost predicate Fits32(v: int)
  {
    -0x8000_0000 <= v < 0x8000_0000
  }

  /** An entry reads back as it was given exactly when its name holds no NUL and its numbers fit. */
  lemma EntryRoundTrip(stale: seq<byte>, info: TableInfo)
    requires |stale| == 272 && |info.name| < NAME_FIELD
    ensures ParseEntry(EntryBytes(stale, info)) == info <==>
      && (forall i :: 0 <= i < |info.name| ==> info.name[i] != 0)
      && Fits32(info.id) && Fits32(info.schemaPage) && Fits32(info.infoPage) && Fits32(info.systemPage)
  {
    hide ParseEntry, EntryBytes, UpToNul;
    EntryReads(stale, info);
    UpToNulWhole(info.name);
    SignedRoundTrip(info.id);
    SignedRoundTrip(info.schemaPage);
    SignedRoundTrip(info.infoPage);
    SignedRoundTrip(info.systemPage);
  }

  function Appended(p: seq<byte>, info: TableInfo): (r: seq<byte>)
    requires EditCheck(p) == Edited && p[0] as int + ReadInt32(p, 1) + 272 <= |p| < 0x8000_0000
    requires |info.name| < NAME_FIELD
    ensures |r| == |p|
  {
    var at := p[0] as int + ReadInt32(p, 1);
    WithLength(Patched(p, at, EntryBytes(p[at..at + 272], info)), ReadInt32(p, 1) + 272)
  }

  /** The list gains exactly the entry written, at its end. */
  lemma AppendedTables(p: seq<byte>, info: TableInfo)
    requires EditCheck(p) == Edited && p[0] as int + ReadInt32(p, 1) + 272 <= |p| < 0x8000_0000
    requires |info.name| < NAME_FIELD
    requires Tables(p).Some? && |Tables(p).value| < MAX_TABLES
    ensures var at := p[0] as int + ReadInt32(p, 1);
      Tables(Appended(p, info)) == Some(Tables(p).value + [ParseEntry(EntryBytes(p[at..at + 272], info))])
  {
    AppendedBytes(p, info);
    var at := p[0] as int + ReadInt32(p, 1);
    var raw, e := FileBytes(p).value, EntryBytes(p[at..at + 272], info);
    EditParts(p);
    var n := |Tables(p).value|;
    assert n < 4096;
    hide *;
    ListSize(p);
    ParseWith(raw, e, n);
    TablesAre(p);
    TablesAre(Appended(p, info));
  }

  lemma ParseWith(raw: seq<byte>, e: seq<byte>, n: nat)
    requires |raw| % 272 == 0 && |raw| / 272 == n < 4096 && |e| == 272
    ensures ParseTableList(raw).Some? && ParseTableList(raw + e) == Some(ParseTableList(raw).value + [ParseEntry(e)])
  {
    hide *;
    var rest := raw + e;
    assert |rest| == (n + 1) * 272 && |rest| % 272 == 0 && |rest| / 272 == n + 1;
    ParseCount(raw);
    ParseCount(rest);
    var before, after := ParseTableList(raw).value, ParseTableList(rest).value;
    forall i | 0 <= i < n
      ensures after[i] == before[i]
    {
      EntryLeft(raw, e, i);
    }
    EntryRight(raw, e, n);
    assert after == before + [ParseEntry(e)];
  }

  lemma EntryLeft(raw: seq<byte>, e: seq<byte>, i: nat)
    requires (i + 1) * 272 <= |raw|
    ensures EntryAt(raw + e, i) == EntryAt(raw, i)
  {
    SliceLeft(raw, e, i * 272, (i + 1) * 272);
  }

  lemma EntryRight(raw: seq<byte>, e: seq<byte>, n: nat)
    requires |raw| == n * 272 && |e| == 272
    ensures EntryAt(raw + e, n) == e
  {
    SliceRight(raw, e, n * 272, (n + 1) * 272);
  }

  lemma AppendedBytes(p: seq<byte>, info: TableInfo)
    requires EditCheck(p) == Edited && p[0] as int + ReadInt32(p, 1) + 272 <= |p| < 0x8000_0000
    requires |info.name| < NAME_FIELD
    ensures FileBytes(p).Some? && |FileBytes(p).value| == ReadInt32(p, 1)
    ensures var at := p[0] as int + ReadInt32(p, 1);
      FileBytes(Appended(p, info)) == Some(FileBytes(p).value + EntryBytes(p[at..at + 272], info))
  {
    hide EntryBytes;
    var h, stored := p[0] as int, ReadInt32(p, 1);
    SignedRead(p, 1);
    var r := Appended(p, info);
    assert r[h..h + stored + 272] == p[h..h + stored] + EntryBytes(p[h + stored..h + stored + 272], info);
  }

  /** Adds an entry to the catalog page, or says why it cannot. */
  method AppendCatalogEntry(payload: array<byte>, info: TableInfo) returns (r: EditResult)
    requires payload.Length < 0x8000_0000
    modifies payload
    ensures r == (var p := old(payload[..]);
      if EditCheck(p) == Edited || EditCheck(p) == SpansPages then
        if p[0] as int + ReadInt32(p, 1) + 272 > |p| then NoRoom
        else if |info.name| >= NAME_FIELD then NameTooLong else Edited
      else EditCheck(p))
    ensures r == Edited ==> payload[..] == Appended(old(payload[..]), info)
    ensures r != Edited ==> payload[..] == old(payload[..])
  {
    var p := payload[..];
    r := EditCheck(p);
    if r != Edited && r != SpansPages { return; }
    CheckParts(p);
    hide EditCheck;
    var h: nat, stored: int := p[0], ReadInt32(p, 1);
    if h + stored + 272 > |p| { return NoRoom; }
    if |info.name| >= 256 { return NameTooLong; }
    r := Edited;
    var at := h + stored;
    PutBytes(payload, at, EntryBytes(p[at..at + 272], info));
    SetLength(payload, stored + 272);
  }

  lemma CheckParts(p: seq<byte>)
    requires EditCheck(p) == Edited || EditCheck(p) == SpansPages
    ensures |p| >= 10 && p[0] >= 10 && ReadInt32(p, 1) >= 0
    ensures EditCheck(p) == Edited <==> p[0] as int + ReadInt32(p, 1) <= |p|
  {
  }
}
