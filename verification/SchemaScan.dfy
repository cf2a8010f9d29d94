/** DROP COLUMN on any stream: where what follows the columns does not parse to its end, constraint names are looked for
    in its text. */
module SchemaScan {
  import opened Bits
  import opened Inflate
  import opened LittleEndian
  import opened Codecs
  import opened SchemaFields
  import opened SchemaStream
  import opened SchemaEdits
  import R = SchemaRecords
  import C = SchemaColumns

  const DOLLAR: byte := 36

  // -- constraint names in text -------------------------------------------------------------------------------

  /** Letters, digits, dollar, dot and underscore. */
  predicate TextByte(b: byte)
  {
    65 <= b <= 90 || 97 <= b <= 122 || 48 <= b <= 57 || b == DOLLAR || b == 46 || b == 95
  }

  /** The run of text around a place: no text byte borders it. */
  ghost predicate Run(t: Bytes, start: nat, at: nat, end: nat)
  {
    && start <= at < end <= |t| && (forall k :: start <= k < end ==> TextByte(t[k]))
    && (start > 0 ==> !TextByte(t[start - 1])) && (end < |t| ==> !TextByte(t[end]))
  }

  /** There is only one. */
  lemma RunUnique(t: Bytes, s1: nat, e1: nat, s2: nat, e2: nat, at: nat)
    requires Run(t, s1, at, e1) && Run(t, s2, at, e2)
    ensures s1 == s2 && e1 == e2
  {
    hide TextByte;
    if s1 < s2 {
      assert false;
    } else if s2 < s1 {
      assert false;
    } else if e1 < e2 {
      assert false;
    } else if e2 < e1 {
      assert false;
    }
  }

  /** A stretch between two dollars, or between one and an end. */
  ghost predicate Token(m: Bytes, a: nat, b: nat)
  {
    && a <= b <= |m| && (forall k :: a <= k < b ==> m[k] != DOLLAR)
    && (a > 0 ==> m[a - 1] == DOLLAR) && (b < |m| ==> m[b] == DOLLAR)
  }

  /** "C_" stands here. */
  predicate Anchor(t: Bytes, i: int)
  {
    0 <= i && i + 1 < |t| && t[i] == 67 && t[i + 1] == 95
  }

  /** The run of text around some "C_" has a token that is the column's name. */
  ghost predicate MarkedAt(t: Bytes, i: int, column: Name, same: Same)
  {
    Anchor(t, i) && exists s: nat, e: nat, a: nat, b: nat ::
      Run(t, s, i, e) && Token(t[s..e], a, b) && same(t[s..e][a..b], column)
  }

  ghost predicate Marked(t: Bytes, column: Name, same: Same)
  {
    exists i :: MarkedAt(t, i, column, same)
  }

  /** Looks for the run around an anchor. */
  method RunAround(t: Bytes, i: nat) returns (start: nat, end: nat)
    requires Anchor(t, i)
    ensures Run(t, start, i, end)
  {
    start, end := i, i + 2;
    while start > 0 && TextByte(t[start - 1])
      invariant start <= i && forall k :: start <= k < i + 2 ==> TextByte(t[k])
    {
      start := start - 1;
    }
    while end < |t| && TextByte(t[end])
      invariant i + 2 <= end <= |t| && forall k :: start <= k < end ==> TextByte(t[k])
    {
      end := end + 1;
    }
  }

  /** Whether one of the marker's tokens is the name. */
  method HasToken(m: Bytes, column: Name, same: Same) returns (found: bool)
    ensures found <==> exists a: nat, b: nat :: Token(m, a, b) && same(m[a..b], column)
  {
    var a, b := 0, 0;
    while b <= |m|
      invariant a <= b <= |m| + 1 && (b > |m| ==> a == b) && forall k :: a <= k < b ==> m[k] != DOLLAR
      invariant a > 0 && a <= |m| ==> m[a - 1] == DOLLAR
      invariant forall x: nat, y: nat :: Token(m, x, y) && x < a ==> !same(m[x..y], column)
    {
      if b == |m| || m[b] == DOLLAR {
        assert Token(m, a, b);
        if same(m[a..b], column) { return true; }
        TokensFrom(m, a, b);
        a, b := b + 1, b + 1;
      } else {
        b := b + 1;
      }
    }
    found := false;
  }

  /** No other token starts between one's start and its end. */
  lemma TokensFrom(m: Bytes, a: nat, b: nat)
    requires Token(m, a, b)
    ensures forall x: nat, y: nat :: Token(m, x, y) && a <= x <= b ==> x == a && y == b
  {
    forall x: nat, y: nat | Token(m, x, y) && a <= x <= b
      ensures x == a && y == b
    {
      if x > a {
        assert false;
      } else if y < b {
        assert false;
      } else if y > b {
        assert false;
      }
    }
  }

  /** Scans the text for constraint names that have the column's as a part. */
  method ScanConstraintMarkers(t: Bytes, column: Name, same: Same) returns (found: bool)
    ensures found <==> Marked(t, column, same)
  {
    hide TextByte, Token, Run;
    var i := 0;
    while i < |t|
      invariant i <= |t| && forall k :: 0 <= k < i ==> !MarkedAt(t, k, column, same)
    {
      if Anchor(t, i) {
        var s, e := RunAround(t, i);
        RunInside(t, s, i, e);
        var hit := HasToken(t[s..e], column, same);
        AtRun(t, i, s, e, column, same);
        if hit { return true; }
      }
      i := i + 1;
    }
    found := false;
  }

  lemma RunInside(t: Bytes, s: nat, i: nat, e: nat)
    requires Run(t, s, i, e)
    ensures s <= e <= |t|
  {
  }

  lemma AtRun(t: Bytes, i: nat, s: nat, e: nat, column: Name, same: Same)
    requires Anchor(t, i) && Run(t, s, i, e) && s <= e <= |t|
    ensures MarkedAt(t, i, column, same) <==>
      exists a: nat, b: nat :: Token(t[s..e], a, b) && same(t[s..e][a..b], column)
  {
    hide Token, Run;
    forall s2: nat, e2: nat | Run(t, s2, i, e2)
      ensures s2 == s && e2 == e
    {
      RunUnique(t, s, e, s2, e2, i);
    }
  }

  // -- the columns without one ----------------------------------------------------------------------------

  /** The stretch between a record's ends cut out leaves the array without that record, and what follows. */
  lemma ColumnsWithout(data: Bytes, es: seq<Entry<C.Column>>, end: nat, i: nat)
    requires |data| >= 4 && |es| == ReadLe32(data, 0) && i < |es|
    requires Spans(C.ColumnC(), data, 4, es, end) && ColumnsC().read(data).Got? && ColumnsC().read(data).size == end
    ensures 4 <= es[i].start <= es[i].end <= end <= |data| && 0 < |es| <= R.MAX_SCHEMA_COLUMNS
    ensures ColumnsC().read(data).value.1 == Values(es)
    ensures ColumnsC().read(ColumnLeftOut(data, end, |es|, es[i].start, es[i].end))
         == Got(((), Without(Values(es), i)), end - (es[i].end - es[i].start))
  {
    hide Lawful, AtLeast, ReadList, Spans, Entries, Bounds, ReadCounted, C.ColumnC, Le32, ReadLe32, Values, Without,
      ColumnLeftOut;
    ArraysLawful();
    var c := C.ColumnC();
    var n, body := ArrayTaken(COLUMN_LIMITS, c, data);
    var t := data[end..];
    assert data[0..] == data == Le32(n) + (body + t);
    ArrayDescribes(c, data, 0, es, end, n, body, t);
    EntryBounds(c, body, es, ReadList(c, n, body).value, i);
    var cut := CutColumn(body, n, es, i);
    ArrayRead(COLUMN_LIMITS, c, n - 1, cut, t);
    assert data[4..end] == body;
    assert data[4..es[i].start] == body[..es[i].start - 4] && data[es[i].end..end] == body[es[i].end - 4..];
    LeftOutIs(data, end, n, es[i].start, es[i].end, cut);
  }

  lemma CutColumn(body: Bytes, n: nat, es: seq<Entry<C.Column>>, i: nat) returns (cut: Bytes)
    requires ReadList(C.ColumnC(), n, body).Got? && ReadList(C.ColumnC(), n, body).size == |body| && i < n == |es|
    requires 4 <= es[i].start && 4 <= es[i].end && Bounds(C.ColumnC(), i, body, es[i].start - 4, es[i].end - 4)
    requires Values(es) == ReadList(C.ColumnC(), n, body).value
    ensures es[i].start <= es[i].end <= |body| + 4
    ensures cut == body[..es[i].start - 4] + body[es[i].end - 4..]
    ensures ReadList(C.ColumnC(), n - 1, cut) == Got(Without(Values(es), i), |cut|)
  {
    hide Lawful, AtLeast, ReadList, Bounds, C.ColumnC, Values, Without;
    ArraysLawful();
    var k, l := es[i].start - 4, es[i].end - 4;
    RecordCut(C.ColumnC(), n, i, body, k, l);
    BoundsInside(C.ColumnC(), i, body, k, l);
    cut := CutOut(body, k, l);
  }

  lemma EntryBounds<A(!new)>(c: Codec<A>, body: Bytes, es: seq<Entry<A>>, xs: seq<A>, i: nat)
    requires Entries(c, body, 4, es, xs) && i < |es|
    ensures |xs| == |es| && Values(es) == xs && es[i].start >= 4 && es[i].end >= 4
    ensures Bounds(c, i, body, es[i].start - 4, es[i].end - 4)
  {
    hide ReadList, Bounds;
    forall j | 0 <= j < |es|
      ensures es[j].value == xs[j]
    {
      assert EntryAt(c, body, 4, es[j], j, xs[j]);
    }
    assert EntryAt(c, body, 4, es[i], i, xs[i]);
  }

  lemma BoundsInside<A(!new)>(c: Codec<A>, i: nat, body: Bytes, k: nat, l: nat)
    requires Bounds(c, i, body, k, l)
    ensures k <= l <= |body|
  {
    hide ReadList;
  }

  lemma LeftOutIs(data: Bytes, end: nat, n: nat, a: nat, b: nat, cut: Bytes)
    requires 0 < n <= R.MAX_SCHEMA_COLUMNS && 4 <= a <= b <= end <= |data| && cut == data[4..a] + data[b..end]
    ensures ColumnLeftOut(data, end, n, a, b) == Le32(n - 1) + (cut + data[end..])
  {
    hide Le32;
  }

  // -- the edit ---------------------------------------------------------------------------------------------

  /** The index records behind the columns. */
  function IndexesBehind(data: Bytes): Read<((), seq<R.IndexRecord>)>
  {
    var r := ColumnsC().read(data);
    if r.Bad? || r.size > |data| then Bad else IndexesC().read(data[r.size..])
  }

  /** What the text behind the columns says against dropping the column. */
  ghost predicate NamedInTail(data: Bytes, column: Name, same: Same)
  {
    var r := ColumnsC().read(data);
    r.Got? && r.size <= |data| && Marked(data[r.size..], column, same)
  }

  /** What speaks against dropping the column, or its place. */
  ghost function ColumnVerdict(cs: seq<C.Column>, rs: seq<R.IndexRecord>, named: bool, column: Name, same: Same)
      : Edit<nat>
  {
    if exists k :: 0 <= k < |rs| && Covers(rs[k], column, same) then Refused(ColumnIndexed)
    else if named then Refused(ColumnConstrained)
    else
      match Find(ColumnNames(cs), column, same)
      case None => Refused(NoSuchColumn)
      case Some(i) => if |cs| == 1 then Refused(LastColumn) else Done(i)
  }

  /** The verdict on a stream that does not parse to its end. */
  ghost function LooseVerdict(data: Bytes, column: Name, same: Same): Edit<nat>
  {
    if |data| < ROOTS_SIZE then Refused(NotUnderstood)
    else if ReadInt32(data, |data| - 4) >= 0 then Refused(HasBlobs)
    else if IndexesBehind(data).Bad? then Refused(NotUnderstood)
    else
      ColumnVerdict(ColumnsC().read(data).value.1, IndexesBehind(data).value.1, NamedInTail(data, column, same), column,
                    same)
  }

  /** Refused as the verdict says, or carried out: the columns are those there were but the one, and every byte behind
      them is kept. */
  ghost predicate LooselyDropped(r: Edit<Bytes>, data: Bytes, verdict: Edit<nat>)
  {
    match verdict
    case Refused(w) => r == Refused(w)
    case Done(i) =>
      && r.Done? && ColumnsC().read(data).Got? && i < |ColumnsC().read(data).value.1|
      && ColumnsC().read(r.value).Got?
      && ColumnsC().read(r.value).value.1 == Without(ColumnsC().read(data).value.1, i)
      && ColumnsC().read(r.value).size <= |r.value| && ColumnsC().read(data).size <= |data|
      && r.value[ColumnsC().read(r.value).size..] == data[ColumnsC().read(data).size..]
  }

  lemma DropIsLoose(data: Bytes, es: seq<Entry<C.Column>>, end: nat, i: nat)
    requires |data| >= 4 && |es| == ReadLe32(data, 0) && i < |es|
    requires Spans(C.ColumnC(), data, 4, es, end) && ColumnsC().read(data).Got? && ColumnsC().read(data).size == end
    ensures 4 <= es[i].start <= es[i].end <= end <= |data| && 0 < |es| <= R.MAX_SCHEMA_COLUMNS
    ensures LooselyDropped(Done(ColumnLeftOut(data, end, |es|, es[i].start, es[i].end)), data, Done(i))
  {
    hide Spans, ColumnsC, C.ColumnC, ReadLe32, Le32;
    ColumnsWithout(data, es, end, i);
    var r := ColumnLeftOut(data, end, |es|, es[i].start, es[i].end);
    var n := end - (es[i].end - es[i].start);
    LeftOutIs(data, end, |es|, es[i].start, es[i].end, data[4..es[i].start] + data[es[i].end..end]);
    assert |r| - n == |data| - end;
    assert r[n..] == data[end..];
  }

  /** What an array parsed record by record holds is what reading it gives. */
  lemma ArrayValues<A(!new)>(l: Limits, c: Codec<A>, data: Bytes, at: nat, es: seq<Entry<A>>, end: nat)
    requires l.Valid() && l.lo == 0 && Lawful(c) && AtLeast(c, l.per) && at + 4 <= |data|
    requires Counted(l, UnitC(), c).read(data[at..]).Got? && |es| == ReadLe32(data, at)
    requires Spans(c, data, at + 4, es, end)
    ensures Counted(l, UnitC(), c).read(data[at..]).value.1 == Values(es)
  {
    hide Lawful, AtLeast, ReadList, Spans, Entries, ReadCounted, Le32, ReadLe32;
    var s := data[at..];
    var n, body := ArrayTaken(l, c, s);
    var t := s[4 + |body|..];
    assert s == Le32(n) + (body + t);
    ArrayDescribes(c, data, at, es, end, n, body, t);
    EntryValues(c, body, at + 4, es, ReadList(c, n, body).value);
  }

  lemma EntryValues<A(!new)>(c: Codec<A>, body: Bytes, base: nat, es: seq<Entry<A>>, xs: seq<A>)
    requires Entries(c, body, base, es, xs)
    ensures Values(es) == xs
  {
    hide ReadList, Bounds;
    forall j | 0 <= j < |es|
      ensures es[j].value == xs[j]
    {
      assert EntryAt(c, body, base, es[j], j, xs[j]);
    }
  }

  lemma RefusedIs(data: Bytes, w: Refusal)
    ensures LooselyDropped(Refused(w), data, Refused(w))
  {
  }

  lemma BehindIs(data: Bytes, end: nat)
    requires ColumnsC().read(data).Got? && ColumnsC().read(data).size == end <= |data|
    ensures IndexesBehind(data) == IndexesC().read(data[end..])
  {
    hide ColumnsC, IndexesC;
  }

  lemma NothingBehind(data: Bytes)
    requires ColumnsC().read(data).Bad?
    ensures IndexesBehind(data).Bad?
  {
    hide ColumnsC, IndexesC;
  }

  lemma NamedIs(data: Bytes, end: nat, column: Name, same: Same)
    requires ColumnsC().read(data).Got? && ColumnsC().read(data).size == end <= |data|
    ensures NamedInTail(data, column, same) <==> Marked(data[end..], column, same)
  {
    hide ColumnsC, Marked;
  }

  /** Whether an index covers the column. */
  method CoveredByIndex(rs: seq<R.IndexRecord>, column: Name, same: Same) returns (covered: bool)
    ensures covered <==> exists k :: 0 <= k < |rs| && Covers(rs[k], column, same)
  {
    hide Covers;
    var k := 0;
    while k < |rs|
      invariant k <= |rs| && forall j :: 0 <= j < k ==> !Covers(rs[j], column, same)
    {
      if Covers(rs[k], column, same) { return true; }
      k := k + 1;
    }
    covered := false;
  }

  method DecideColumn(cs: seq<C.Column>, rs: seq<R.IndexRecord>, tail: Bytes, column: Name, same: Same)
      returns (v: Edit<nat>)
    ensures v == ColumnVerdict(cs, rs, Marked(tail, column, same), column, same)
    ensures v.Done? ==> v.value < |cs|
  {
    hide Marked, Covers, Find, ColumnNames;
    var covered := CoveredByIndex(rs, column, same);
    if covered { return Refused(ColumnIndexed); }
    var named := ScanConstraintMarkers(tail, column, same);
    if named { return Refused(ColumnConstrained); }
    var i := Find(ColumnNames(cs), column, same);
    if i.None? { return Refused(NoSuchColumn); }
    v := if |cs| == 1 then Refused(LastColumn) else Done(i.value);
  }

  /** The edit where the stream does not parse to its end. */
  method DropLoosely(data: Bytes, column: Name, same: Same) returns (r: Edit<Bytes>)
    ensures LooselyDropped(r, data, LooseVerdict(data, column, same))
  {
    hide Lawful, AtLeast, Spans, ReadCounted, C.ColumnC, R.IndexC, LooselyDropped, Marked, IndexesBehind, NamedInTail,
      Covers, Find, ColumnLeftOut, Values, ColumnNames, ReadInt32, ReadList,
      ColumnVerdict;
    ArraysLawful();
    assert data[0..] == data;
    if |data| < ROOTS_SIZE {
      RefusedIs(data, NotUnderstood);
      return Refused(NotUnderstood);
    }
    if ReadInt32(data, |data| - 4) >= 0 {
      RefusedIs(data, HasBlobs);
      return Refused(HasBlobs);
    }
    var ok, es, end := ParseArray(COLUMN_LIMITS, C.ColumnC(), data, 0);
    if !ok {
      NothingBehind(data);
      RefusedIs(data, NotUnderstood);
      return Refused(NotUnderstood);
    }
    BehindIs(data, end);
    NamedIs(data, end, column, same);
    var some, rs, tail := ParseArray(ARRAY_LIMITS, R.IndexC(), data, end);
    if !some {
      RefusedIs(data, NotUnderstood);
      return Refused(NotUnderstood);
    }
    ArrayValues(COLUMN_LIMITS, C.ColumnC(), data, 0, es, end);
    ArrayValues(ARRAY_LIMITS, R.IndexC(), data, end, rs, tail);
    var v := DecideColumn(Values(es), Values(rs), data[end..], column, same);
    if v.Refused? {
      RefusedIs(data, v.why);
      return Refused(v.why);
    }
    DropIsLoose(data, es, end, v.value);
    r := Done(ColumnLeftOut(data, end, |es|, es[v.value].start, es[v.value].end));
  }

  /** DROP COLUMN on any stream: on one that parses to its end the schema loses the column, on another the columns do
      and what follows them is kept. */
  method DropAnyColumn(data: Bytes, column: Name, same: Same) returns (r: Edit<Bytes>)
    ensures ParseStream(data).Some? ==> Refines(r, DropColumnOn(ParseStream(data).value, column, same), true)
    ensures ParseStream(data).Some? ==> (r.Done? <==> Droppable(ParseStream(data).value, column, same))
    ensures ParseStream(data).None? ==> LooselyDropped(r, data, LooseVerdict(data, column, same))
  {
    hide *;
    var parses, t, p := ParseSchemaTail(data);
    if parses {
      r := DropColumn(data, column, same);
    } else {
      r := DropLoosely(data, column, same);
    }
  }
}
